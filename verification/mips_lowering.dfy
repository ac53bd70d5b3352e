/** The smaller decision procedures of the MIPS SE lowering: the
    BUILD_VECTOR splat rules, the DSP condition-code legality table and the
    SETCC combine that uses it, the MADD/MSUB fusion patterns, and the
    table that lowers multiplications and divisions to the HI/LO unit. */
module MipsLowering {
  import opened Wrappers
  import MipsShuffle
  import MipsConstMult
  import Powers

  // ---------------------------------------------------------------------
  // BUILD_VECTOR
  // ---------------------------------------------------------------------

  /** An operand of a BUILD_VECTOR node.  Equal values are the same DAG
      node (constants are uniqued), which is what isSplatVector compares. */
  datatype Elem = UndefElem | ConstInt(v: int) | ConstFP(bits: int) | Other(node: nat)

  /** isConstantOrUndef. */
  predicate IsConstantOrUndef(e: Elem) {
    !e.Other?
  }

  /** isConstantOrUndefBUILD_VECTOR: true when ANY operand is a constant or
      undefined (not when all of them are). */
  predicate AnyConstantOrUndef(elems: seq<Elem>) {
    exists i :: 0 <= i < |elems| && IsConstantOrUndef(elems[i])
  }

  /** isSplatVector: every operand is the same node as the first. */
  predicate IsSplat(elems: seq<Elem>)
    requires |elems| > 1
  {
    forall i :: 1 <= i < |elems| ==> elems[i] == elems[0]
  }

  /** The answer of BuildVectorSDNode::isConstantSplat (a collaborator of
      this code): the splatted bit pattern and its width. */
  datatype ConstSplat = ConstSplat(value: nat, bitSize: nat)

  /** The signed value of a `bits`-wide pattern. */
  function Signed(value: nat, bits: nat): int
    requires bits >= 1
  {
    if value >= Powers.Pow2(bits - 1) then value - Powers.Pow2(bits) else value
  }

  /** APInt::isSignedIntN(10). */
  predicate FitsSimm10(value: nat, bits: nat)
    requires bits >= 1
  {
    -512 <= Signed(value, bits) < 512
  }

  /** What BUILD_VECTOR is lowered to. */
  datatype BuildVectorLowering =
    | BVNotLowered
    | BVUnchanged
      /** A splat rebuilt as a vector of `viaLanes` lanes of `viaBits` bits,
          each the 32-bit `constant`, bitcast to the result type when that
          type differs. */
    | SplatVia(viaLanes: nat, viaBits: nat, constant: nat, bitcast: bool)
      /** UNDEF followed by one INSERT_VECTOR_ELT per lane, in lane order. */
    | InsertChain(inserts: seq<(Elem, nat)>)

  /** The splat's 32-bit constant: its value sign-extended to 32 bits, as
      an unsigned 32-bit pattern. */
  function SplatConstant(value: nat, bits: nat): (c: nat)
    requires 1 <= bits <= 32
    ensures c < 0x1_0000_0000
  {
    Signed(value, bits) % 0x1_0000_0000
  }

  /** The lane count of the vector type the splat is rebuilt in:
      v16i8, v8i16 or v4i32. */
  function ViaLanes(bits: nat): (lanes: nat)
    requires bits == 8 || bits == 16 || bits == 32
    ensures lanes * bits == 128
  {
    if bits == 8 then 16 else if bits == 16 then 8 else 4
  }

  /** lowerBUILD_VECTOR. */
  function LowerBuildVector(hasMsa: bool, ty: MipsShuffle.VecType, elems: seq<Elem>,
                            splat: Option<ConstSplat>): (r: BuildVectorLowering)
    requires |elems| == ty.numElts && MipsShuffle.MsaLaneWidth(ty)
    requires splat.Some? ==> splat.value.bitSize >= 1
    ensures (!hasMsa || !MipsShuffle.Is128Bit(ty)) ==> r == BVNotLowered
    ensures r.SplatVia? ==> splat.Some? && r.viaBits == splat.value.bitSize
    ensures r.SplatVia? ==> r.viaLanes * r.viaBits == 128
    ensures r.SplatVia? ==> !FitsSimm10(splat.value.value, splat.value.bitSize)
    ensures r.SplatVia? ==> (r.bitcast <==> (ty.eltBits != r.viaBits || ty.isFloat))
    ensures r.SplatVia? ==> r.viaBits <= 32 && r.constant == SplatConstant(splat.value.value, r.viaBits)
    ensures r.InsertChain? ==> (|r.inserts| == |elems| &&
      (forall i :: 0 <= i < |elems| ==> r.inserts[i] == (elems[i], i)))
    ensures r.InsertChain? ==> forall i :: 0 <= i < |elems| ==> !IsConstantOrUndef(elems[i])
  {
    if !hasMsa || !MipsShuffle.Is128Bit(ty) then BVNotLowered
    else if splat.Some? && splat.value.bitSize <= 64 then
      var bits := splat.value.bitSize;
      var value := splat.value.value;
      if bits != 8 && bits != 16 && bits != 32 && bits != 64 then BVNotLowered
      else if FitsSimm10(value, bits) then BVUnchanged
      else if bits == 64 then BVNotLowered
      else
        SplatVia(ViaLanes(bits), bits, SplatConstant(value, bits), ty.eltBits != bits || ty.isFloat)
    else if IsSplat(elems) then BVUnchanged
    else if !AnyConstantOrUndef(elems) then
      InsertChain(seq(|elems|, i requires 0 <= i < |elems| => (elems[i], i)))
    else BVNotLowered
  }

  /** Which BUILD_VECTORs of a 128-bit SIMD type are rebuilt: a constant
      splat of 8, 16 or 32 bits that does not fit a signed 10-bit immediate
      goes through its 32-bit constant, one of 64 bits is left alone, and
      without a usable constant splat a non-splat vector of non-constant
      nodes becomes a chain of inserts. */
  lemma BuildVectorLoweredCases(ty: MipsShuffle.VecType, elems: seq<Elem>, splat: Option<ConstSplat>)
    requires |elems| == ty.numElts && MipsShuffle.MsaLaneWidth(ty) && MipsShuffle.Is128Bit(ty)
    requires splat.Some? ==> splat.value.bitSize >= 1
    ensures var r := LowerBuildVector(true, ty, elems, splat);
      && (r.SplatVia? <==>
            splat.Some? && splat.value.bitSize in {8, 16, 32} && !FitsSimm10(splat.value.value, splat.value.bitSize))
      && (splat.Some? && splat.value.bitSize == 64 && !FitsSimm10(splat.value.value, 64) ==> r == BVNotLowered)
      && (r.InsertChain? <==>
            (splat.None? || splat.value.bitSize > 64) && !IsSplat(elems)
            && forall i :: 0 <= i < |elems| ==> !IsConstantOrUndef(elems[i]))
  {
  }

  /** The splat rebuilt through the 32-bit constant still holds the splat's
      pattern in every lane: cutting the sign-extended constant back to the
      lane width gives the original value. */
  lemma SplatConstantRoundTrip(value: nat, bits: nat)
    requires bits == 8 || bits == 16 || bits == 32
    requires value < Powers.Pow2(bits)
    ensures SplatConstant(value, bits) % Powers.Pow2(bits) == value
  {
    MipsConstMult.Pow2Widths();
    var full := Powers.Pow2(bits);
    var k := if bits == 8 then 0x100_0000 else if bits == 16 then 0x1_0000 else 1;
    assert full * k == 0x1_0000_0000;
    RoundTripAt(value, full, k, Signed(value, bits));
  }

  /** The constant a rebuilt splat is made of holds the splat's pattern in
      every lane of the vector type it is rebuilt in. */
  lemma SplatViaKeepsPattern(hasMsa: bool, ty: MipsShuffle.VecType, elems: seq<Elem>, splat: Option<ConstSplat>)
    requires |elems| == ty.numElts && MipsShuffle.MsaLaneWidth(ty)
    requires splat.Some? ==> splat.value.bitSize >= 1
    requires LowerBuildVector(hasMsa, ty, elems, splat).SplatVia?
    requires splat.value.value < Powers.Pow2(splat.value.bitSize)
    ensures var r := LowerBuildVector(hasMsa, ty, elems, splat);
      r.constant % Powers.Pow2(r.viaBits) == splat.value.value
  {
    SplatConstantRoundTrip(splat.value.value, splat.value.bitSize);
  }

  /** Cutting value or value - full to 32 bits and then to a width `full`
      that divides 2^32 gives back value. */
  lemma RoundTripAt(value: nat, full: nat, k: nat, signed: int)
    requires 0 < full && full * k == 0x1_0000_0000 && value < full
    requires signed == value || signed == value - full
    ensures (signed % 0x1_0000_0000) % full == value
  {
    var cut := value + full * (k - 1);
    assert k >= 1;
    assert cut < 0x1_0000_0000;
    if signed == value - full {
      Powers.ModUnique(signed, 0x1_0000_0000, -1, cut);
    } else {
      Powers.ModUnique(signed, 0x1_0000_0000, 0, value);
    }
    Powers.ModUnique(cut, full, k - 1, value);
    Powers.ModUnique(value, full, 0, value);
  }

  /** Which BUILD_VECTORs of a 128-bit SIMD type are handed on unchanged:
      a constant splat that fits a signed 10-bit immediate, or a splat of
      one non-constant node (when there is no usable constant splat). */
  lemma BuildVectorUnchangedCases(ty: MipsShuffle.VecType, elems: seq<Elem>, splat: Option<ConstSplat>)
    requires |elems| == ty.numElts && MipsShuffle.MsaLaneWidth(ty) && MipsShuffle.Is128Bit(ty)
    requires splat.Some? ==> splat.value.bitSize >= 1
    ensures LowerBuildVector(true, ty, elems, splat) == BVUnchanged <==>
      if splat.Some? && splat.value.bitSize <= 64 then
        splat.value.bitSize in {8, 16, 32, 64} && FitsSimm10(splat.value.value, splat.value.bitSize)
      else
        IsSplat(elems)
  {
  }

  // ---------------------------------------------------------------------
  // DSP condition codes
  // ---------------------------------------------------------------------

  /** The integer condition codes; every other code (the floating-point
      and always/never ones) is `OtherCond`. */
  datatype CondCode =
    | SETEQ | SETNE
    | SETLT | SETLE | SETGT | SETGE
    | SETULT | SETULE | SETUGT | SETUGE
    | OtherCond

  /** The DSP vector types compared by SETCC_DSP. */
  datatype DspType = V2I16 | V4I8 | OtherDspType

  predicate IsSignedOrdering(cc: CondCode) {
    cc == SETLT || cc == SETLE || cc == SETGT || cc == SETGE
  }

  predicate IsUnsignedOrdering(cc: CondCode) {
    cc == SETULT || cc == SETULE || cc == SETUGT || cc == SETUGE
  }

  /** isLegalDSPCondCode. */
  function IsLegalDspCondCode(ty: DspType, cc: CondCode): (legal: bool) {
    match cc
    case SETEQ => true
    case SETNE => true
    case SETLT => ty == V2I16
    case SETLE => ty == V2I16
    case SETGT => ty == V2I16
    case SETGE => ty == V2I16
    case SETULT => ty != V2I16
    case SETULE => ty != V2I16
    case SETUGT => ty != V2I16
    case SETUGE => ty != V2I16
    case OtherCond => false
  }

  /** The condition with its operands exchanged (a < b is b > a). */
  function Swapped(cc: CondCode): CondCode {
    match cc
    case SETLT => SETGT
    case SETGT => SETLT
    case SETLE => SETGE
    case SETGE => SETLE
    case SETULT => SETUGT
    case SETUGT => SETULT
    case SETULE => SETUGE
    case SETUGE => SETULE
    case _ => cc
  }

  /** The negated condition (not a < b is a >= b). */
  function Inverse(cc: CondCode): CondCode {
    match cc
    case SETEQ => SETNE
    case SETNE => SETEQ
    case SETLT => SETGE
    case SETGE => SETLT
    case SETLE => SETGT
    case SETGT => SETLE
    case SETULT => SETUGE
    case SETUGE => SETULT
    case SETULE => SETUGT
    case SETUGT => SETULE
    case OtherCond => OtherCond
  }

  /** The legality table in words: equality tests always, signed orderings
      only on v2i16, unsigned orderings only on the other types; and it is
      closed under exchanging the operands and under negation, so the
      combine is not lost when a comparison is canonicalised. */
  lemma DspCondCodeTable(ty: DspType, cc: CondCode)
    ensures IsLegalDspCondCode(ty, cc) <==>
      cc == SETEQ || cc == SETNE ||
      (IsSignedOrdering(cc) && ty == V2I16) || (IsUnsignedOrdering(cc) && ty != V2I16)
    ensures IsLegalDspCondCode(ty, Swapped(cc)) == IsLegalDspCondCode(ty, cc)
    ensures IsLegalDspCondCode(ty, Inverse(cc)) == IsLegalDspCondCode(ty, cc)
    ensures !(IsSignedOrdering(cc) && IsLegalDspCondCode(ty, cc) &&
              IsLegalDspCondCode(ty, if cc == SETLT then SETULT else SETULE))
  {
  }

  /** performSETCCCombine: a vector SETCC of a DSP type with a legal
      condition becomes SETCC_DSP on the same operands; otherwise the node
      is left alone (None). */
  function SetccCombine(ty: DspType, cc: CondCode): (r: Option<CondCode>)
    ensures r.Some? <==> ty != OtherDspType && IsLegalDspCondCode(ty, cc)
    ensures r.Some? ==> r.value == cc
  {
    if ty == OtherDspType then None
    else if !IsLegalDspCondCode(ty, cc) then None
    else Some(cc)
  }

  // ---------------------------------------------------------------------
  // MADD / MSUB
  // ---------------------------------------------------------------------

  /** The opcodes the fusion patterns look at and the ones they create:
      InsertLOHI builds the 64-bit accumulator from two words, the fused
      MAdd/MAddu/MSub/MSubu nodes multiply into it, and ExtractLo/ExtractHi
      read one of its halves back. */
  datatype MOp =
    | ADDC | ADDE | SUBC | SUBE | SMUL_LOHI | UMUL_LOHI
    | InsertLOHI | MAdd | MAddu | MSub | MSubu | ExtractLo | ExtractHi
    | OtherMOp

  /** Result `resNo` of DAG node `node`. */
  datatype MVal = MVal(node: nat, resNo: nat)

  datatype MNode = MNode(op: MOp, operands: seq<MVal>)

  /** Every operand names a node of the graph, and the carry nodes and the
      double-width multiplications have their usual operand counts. */
  predicate WellFormed(g: seq<MNode>) {
    && (forall n, k :: 0 <= n < |g| && 0 <= k < |g[n].operands| ==> g[n].operands[k].node < |g|)
    && (forall n :: 0 <= n < |g| && g[n].op in {ADDC, SUBC, SMUL_LOHI, UMUL_LOHI} ==> |g[n].operands| == 2)
    && (forall n :: 0 <= n < |g| && g[n].op in {ADDE, SUBE} ==> |g[n].operands| == 3)
  }

  /** How many operand slots of `ops` hold `v`. */
  function CountIn(ops: seq<MVal>, v: MVal): nat {
    if |ops| == 0 then 0 else (if ops[0] == v then 1 else 0) + CountIn(ops[1..], v)
  }

  /** How many operand slots of the whole graph hold `v` (SDValue::use_size). */
  function Uses(g: seq<MNode>, v: MVal): nat {
    if |g| == 0 then 0 else CountIn(g[0].operands, v) + Uses(g[1..], v)
  }

  predicate HasOneUse(g: seq<MNode>, v: MVal) {
    Uses(g, v) == 1
  }

  /** `!SDValue(node, resNo).use_empty()`. */
  predicate HasUses(g: seq<MNode>, v: MVal) {
    Uses(g, v) > 0
  }

  /** The fused multiply-accumulate the pattern is rewritten to: the two
      factors, the LO and HI halves of the initial accumulator, and whether
      the old low and high results had users to redirect. */
  datatype FusedMulAcc = FusedMulAcc(
    isUnsigned: bool, factor0: MVal, factor1: MVal, accLo: MVal, accHi: MVal,
    replaceLo: bool, replaceHi: bool)

  /** The shape selectMADD looks for around an ADDE node: its carry input
      comes from an ADDC; ADDE adds result 1 and ADDC adds result 0 of the
      same SMUL_LOHI/UMUL_LOHI node `mult`, each the only use of its
      result. */
  predicate MaddShape(g: seq<MNode>, adde: nat, mult: nat)
    requires WellFormed(g) && adde < |g| && g[adde].op == ADDE
  {
    var addc := g[adde].operands[2].node;
    && g[addc].op == ADDC
    && g[adde].operands[0] == MVal(mult, 1)
    && g[addc].operands[0] == MVal(mult, 0)
    && g[mult].op in {SMUL_LOHI, UMUL_LOHI}
    && HasOneUse(g, MVal(mult, 1)) && HasOneUse(g, MVal(mult, 0))
  }

  /** selectMADD on an ADDE node. */
  function SelectMadd(g: seq<MNode>, adde: nat): (r: Option<FusedMulAcc>)
    requires WellFormed(g) && adde < |g| && g[adde].op == ADDE
    ensures r.Some? <==> exists mult :: MaddShape(g, adde, mult)
    ensures r.Some? ==>
      var addc := g[adde].operands[2].node;
      var mult := g[adde].operands[0].node;
      && MaddShape(g, adde, mult)
      && r.value.isUnsigned == (g[mult].op == UMUL_LOHI)
      && r.value.factor0 == g[mult].operands[0] && r.value.factor1 == g[mult].operands[1]
      && r.value.accLo == g[addc].operands[1] && r.value.accHi == g[adde].operands[1]
      && r.value.replaceLo == HasUses(g, MVal(addc, 0))
      && r.value.replaceHi == HasUses(g, MVal(adde, 0))
  {
    var addc := g[adde].operands[2].node;
    if g[addc].op != ADDC then None
    else
      var multHi := g[adde].operands[0];
      var multLo := g[addc].operands[0];
      var mult := multHi.node;
      if multLo.node != mult then None
      else if g[mult].op != SMUL_LOHI && g[mult].op != UMUL_LOHI then None
      else if multHi.resNo != 1 || multLo.resNo != 0 then None
      else if !HasOneUse(g, multHi) || !HasOneUse(g, multLo) then None
      else (assert MaddShape(g, adde, mult);
        Some(FusedMulAcc(g[mult].op == UMUL_LOHI, g[mult].operands[0], g[mult].operands[1],
                            g[addc].operands[1], g[adde].operands[1],
                            HasUses(g, MVal(addc, 0)), HasUses(g, MVal(adde, 0)))))
  }

  /** The shape selectMSUB looks for around a SUBE node: the same, with the
      product halves as the SECOND operands of SUBE and SUBC, which subtract
      them from the accumulator halves. */
  predicate MsubShape(g: seq<MNode>, sube: nat, mult: nat)
    requires WellFormed(g) && sube < |g| && g[sube].op == SUBE
  {
    var subc := g[sube].operands[2].node;
    && g[subc].op == SUBC
    && g[sube].operands[1] == MVal(mult, 1)
    && g[subc].operands[1] == MVal(mult, 0)
    && g[mult].op in {SMUL_LOHI, UMUL_LOHI}
    && HasOneUse(g, MVal(mult, 1)) && HasOneUse(g, MVal(mult, 0))
  }

  /** selectMSUB on a SUBE node. */
  function SelectMsub(g: seq<MNode>, sube: nat): (r: Option<FusedMulAcc>)
    requires WellFormed(g) && sube < |g| && g[sube].op == SUBE
    ensures r.Some? <==> exists mult :: MsubShape(g, sube, mult)
    ensures r.Some? ==>
      var subc := g[sube].operands[2].node;
      var mult := g[sube].operands[1].node;
      && MsubShape(g, sube, mult)
      && r.value.isUnsigned == (g[mult].op == UMUL_LOHI)
      && r.value.factor0 == g[mult].operands[0] && r.value.factor1 == g[mult].operands[1]
      && r.value.accLo == g[subc].operands[0] && r.value.accHi == g[sube].operands[0]
      && r.value.replaceLo == HasUses(g, MVal(subc, 0))
      && r.value.replaceHi == HasUses(g, MVal(sube, 0))
  {
    var subc := g[sube].operands[2].node;
    if g[subc].op != SUBC then None
    else
      var multHi := g[sube].operands[1];
      var multLo := g[subc].operands[1];
      var mult := multHi.node;
      if multLo.node != mult then None
      else if g[mult].op != SMUL_LOHI && g[mult].op != UMUL_LOHI then None
      else if multHi.resNo != 1 || multLo.resNo != 0 then None
      else if !HasOneUse(g, multHi) || !HasOneUse(g, multLo) then None
      else (assert MsubShape(g, sube, mult);
        Some(FusedMulAcc(g[mult].op == UMUL_LOHI, g[mult].operands[0], g[mult].operands[1],
                            g[subc].operands[0], g[sube].operands[0],
                            HasUses(g, MVal(subc, 0)), HasUses(g, MVal(sube, 0)))))
  }

  /** The combines run selectMADD/selectMSUB only after legalization, on
      a MIPS32 subtarget, for i32 nodes. */
  function CombineAdde(beforeLegalize: bool, hasMips32: bool, isI32: bool,
                       g: seq<MNode>, adde: nat): (r: Option<FusedMulAcc>)
    requires WellFormed(g) && adde < |g| && g[adde].op == ADDE
    ensures beforeLegalize || !hasMips32 || !isI32 ==> r.None?
    ensures r.Some? <==> !beforeLegalize && hasMips32 && isI32 && exists mult :: MaddShape(g, adde, mult)
  {
    if beforeLegalize then None
    else if hasMips32 && isI32 then SelectMadd(g, adde)
    else None
  }

  function CombineSube(beforeLegalize: bool, hasMips32: bool, isI32: bool,
                       g: seq<MNode>, sube: nat): (r: Option<FusedMulAcc>)
    requires WellFormed(g) && sube < |g| && g[sube].op == SUBE
    ensures beforeLegalize || !hasMips32 || !isI32 ==> r.None?
    ensures r.Some? <==> !beforeLegalize && hasMips32 && isI32 && exists mult :: MsubShape(g, sube, mult)
  {
    if beforeLegalize then None
    else if hasMips32 && isI32 then SelectMsub(g, sube)
    else None
  }

  /** One operand list with every `from` replaced by `to`. */
  function ReplaceIn(ops: seq<MVal>, from: MVal, to: MVal): (r: seq<MVal>)
    ensures |r| == |ops|
  {
    if |ops| == 0 then []
    else [if ops[0] == from then to else ops[0]] + ReplaceIn(ops[1..], from, to)
  }

  /** ReplaceAllUsesOfValueWith: every operand slot holding `from` holds
      `to` instead; opcodes are untouched. */
  function ReplaceUses(g: seq<MNode>, from: MVal, to: MVal): (r: seq<MNode>)
    ensures |r| == |g|
    ensures forall n :: 0 <= n < |g| ==> r[n].op == g[n].op
  {
    if |g| == 0 then []
    else [MNode(g[0].op, ReplaceIn(g[0].operands, from, to))] + ReplaceUses(g[1..], from, to)
  }

  lemma {:induction false} CountInReplaced(ops: seq<MVal>, from: MVal, to: MVal, v: MVal)
    requires from != to
    ensures CountIn(ReplaceIn(ops, from, to), v) ==
      if v == from then 0
      else if v == to then CountIn(ops, to) + CountIn(ops, from)
      else CountIn(ops, v)
  {
    if |ops| > 0 {
      assert ReplaceIn(ops, from, to)[1..] == ReplaceIn(ops[1..], from, to);
      CountInReplaced(ops[1..], from, to, v);
    }
  }

  /** After ReplaceAllUsesOfValueWith nothing uses `from`, `to` has
      gained exactly the uses `from` had, and every other value keeps its
      use count. */
  lemma {:induction false} ReplaceUsesCounts(g: seq<MNode>, from: MVal, to: MVal, v: MVal)
    requires from != to
    ensures Uses(ReplaceUses(g, from, to), v) ==
      if v == from then 0
      else if v == to then Uses(g, to) + Uses(g, from)
      else Uses(g, v)
  {
    if |g| > 0 {
      var r := ReplaceUses(g, from, to);
      assert r[1..] == ReplaceUses(g[1..], from, to);
      CountInReplaced(g[0].operands, from, to, v);
      ReplaceUsesCounts(g[1..], from, to, v);
    }
  }

  lemma {:induction false} UsesAppend(g: seq<MNode>, n: MNode, v: MVal)
    ensures Uses(g + [n], v) == Uses(g, v) + CountIn(n.operands, v)
  {
    if |g| == 0 {
      assert (g + [n])[1..] == [];
    } else {
      assert (g + [n])[1..] == g[1..] + [n];
      UsesAppend(g[1..], n, v);
    }
  }

  lemma {:induction false} CountInAbsent(ops: seq<MVal>, v: MVal)
    requires v !in ops
    ensures CountIn(ops, v) == 0
  {
    if |ops| > 0 {
      assert ops == [ops[0]] + ops[1..];
      CountInAbsent(ops[1..], v);
    }
  }

  lemma {:induction false} CountInPositive(ops: seq<MVal>, k: nat)
    requires k < |ops|
    ensures CountIn(ops, ops[k]) >= 1
  {
    if k > 0 {
      CountInPositive(ops[1..], k - 1);
    }
  }

  /** A value that some operand slot holds has at least one use. */
  lemma {:induction false} UsesPositive(g: seq<MNode>, n: nat, k: nat)
    requires n < |g| && k < |g[n].operands|
    ensures Uses(g, g[n].operands[k]) >= 1
  {
    if n == 0 {
      CountInPositive(g[0].operands, k);
    } else {
      UsesPositive(g[1..], n - 1, k);
    }
  }

  /** The opcode of the fused node. */
  function FusedOp(isSub: bool, isUnsigned: bool): MOp {
    if isSub then (if isUnsigned then MSubu else MSub)
    else (if isUnsigned then MAddu else MAdd)
  }

  /** The rewrite selectMADD/selectMSUB performs once the pattern matched:
      append InsertLOHI(accLo, accHi) and the fused node; then, for each of
      the low (carry node) and high (top node) results that has users, append
      an extract of that half and redirect the users to it. */
  function RewriteFused(g: seq<MNode>, top: nat, carry: nat, f: FusedMulAcc, isSub: bool): (r: seq<MNode>)
    ensures |g| + 2 <= |r| <= |g| + 4
    ensures r[|g|].op == InsertLOHI && r[|g| + 1].op == FusedOp(isSub, f.isUnsigned)
    ensures forall n :: 0 <= n < |g| ==> r[n].op == g[n].op
  {
    var g1 := g + [MNode(InsertLOHI, [f.accLo, f.accHi]),
                   MNode(FusedOp(isSub, f.isUnsigned), [f.factor0, f.factor1, MVal(|g|, 0)])];
    var fused := MVal(|g| + 1, 0);
    var g2 := if f.replaceLo then ReplaceUses(g1 + [MNode(ExtractLo, [fused])], MVal(carry, 0), MVal(|g1|, 0)) else g1;
    if f.replaceHi then ReplaceUses(g2 + [MNode(ExtractHi, [fused])], MVal(top, 0), MVal(|g2|, 0)) else g2
  }

  /** After a MADD fusion the ADDC and ADDE results have no users left: the
      old nodes are dead, and the product's halves are used only by them. */
  lemma MaddLeavesCarryChainDead(g: seq<MNode>, adde: nat)
    requires WellFormed(g) && adde < |g| && g[adde].op == ADDE
    requires SelectMadd(g, adde).Some?
    ensures var addc := g[adde].operands[2].node;
      var g' := RewriteFused(g, adde, addc, SelectMadd(g, adde).value, false);
      Uses(g', MVal(addc, 0)) == 0 && Uses(g', MVal(adde, 0)) == 0
  {
    var addc := g[adde].operands[2].node;
    var mult := g[adde].operands[0].node;
    var f := SelectMadd(g, adde).value;
    assert f.accLo == g[addc].operands[1] && f.accHi == g[adde].operands[1];
    assert f.factor0 == g[mult].operands[0] && f.factor1 == g[mult].operands[1];
    FusionLeavesDead(g, adde, addc, mult, f, false);
  }

  /** The same for MSUB and its SUBC/SUBE pair. */
  lemma MsubLeavesCarryChainDead(g: seq<MNode>, sube: nat)
    requires WellFormed(g) && sube < |g| && g[sube].op == SUBE
    requires SelectMsub(g, sube).Some?
    ensures var subc := g[sube].operands[2].node;
      var g' := RewriteFused(g, sube, subc, SelectMsub(g, sube).value, true);
      Uses(g', MVal(subc, 0)) == 0 && Uses(g', MVal(sube, 0)) == 0
  {
    var subc := g[sube].operands[2].node;
    var mult := g[sube].operands[1].node;
    var f := SelectMsub(g, sube).value;
    assert f.accLo == g[subc].operands[0] && f.accHi == g[sube].operands[0];
    assert f.factor0 == g[mult].operands[0] && f.factor1 == g[mult].operands[1];
    FusionLeavesDead(g, sube, subc, mult, f, true);
  }

  /** The common argument: the accumulator words and the factors are
      operands in `g`, so a value with no users in `g` is not one of them
      and stays unused; a value with users is redirected. */
  lemma FusionLeavesDead(g: seq<MNode>, top: nat, carry: nat, mult: nat, f: FusedMulAcc, isSub: bool)
    requires top < |g| && carry < |g| && mult < |g| && top != carry
    requires |g[top].operands| >= 2 && |g[carry].operands| >= 2 && |g[mult].operands| >= 2
    requires (f.accLo == g[carry].operands[0] || f.accLo == g[carry].operands[1])
    requires (f.accHi == g[top].operands[0] || f.accHi == g[top].operands[1])
    requires f.factor0 == g[mult].operands[0] && f.factor1 == g[mult].operands[1]
    requires f.replaceLo == HasUses(g, MVal(carry, 0)) && f.replaceHi == HasUses(g, MVal(top, 0))
    ensures var g' := RewriteFused(g, top, carry, f, isSub);
      Uses(g', MVal(carry, 0)) == 0 && Uses(g', MVal(top, 0)) == 0
  {
    var lo := MVal(carry, 0);
    var hi := MVal(top, 0);
    var g1 := g + [MNode(InsertLOHI, [f.accLo, f.accHi]),
                   MNode(FusedOp(isSub, f.isUnsigned), [f.factor0, f.factor1, MVal(|g|, 0)])];
    NewNodesKeepUses(g, top, carry, mult, f, isSub, lo);
    NewNodesKeepUses(g, top, carry, mult, f, isSub, hi);
    var fused := MVal(|g| + 1, 0);
    var e0 := MNode(ExtractLo, [fused]);
    var g2 := if f.replaceLo then ReplaceUses(g1 + [e0], lo, MVal(|g1|, 0)) else g1;
    if f.replaceLo {
      ReplaceStep(g1, e0, lo, hi);
    }
    var e1 := MNode(ExtractHi, [fused]);
    if f.replaceHi {
      ReplaceStep(g2, e1, hi, lo);
    }
  }

  /** Appending an extract node and redirecting the users of `from` to it
      leaves `from` unused and another old value's use count unchanged. */
  lemma ReplaceStep(g: seq<MNode>, e: MNode, from: MVal, other: MVal)
    requires from.node < |g| && other.node < |g| && other != from && other !in e.operands
    ensures var g' := ReplaceUses(g + [e], from, MVal(|g|, 0));
      Uses(g', from) == 0 && Uses(g', other) == Uses(g, other)
  {
    UsesAppend(g, e, other);
    CountInAbsent(e.operands, other);
    ReplaceUsesCounts(g + [e], from, MVal(|g|, 0), from);
    ReplaceUsesCounts(g + [e], from, MVal(|g|, 0), other);
  }

  /** Appending InsertLOHI and the fused node leaves the use count of an
      old node's value unchanged when it had none, since every operand the
      new nodes copy is already used in `g`. */
  lemma NewNodesKeepUses(g: seq<MNode>, top: nat, carry: nat, mult: nat, f: FusedMulAcc, isSub: bool, v: MVal)
    requires top < |g| && carry < |g| && mult < |g| && v.node < |g|
    requires |g[top].operands| >= 2 && |g[carry].operands| >= 2 && |g[mult].operands| >= 2
    requires (f.accLo == g[carry].operands[0] || f.accLo == g[carry].operands[1])
    requires (f.accHi == g[top].operands[0] || f.accHi == g[top].operands[1])
    requires f.factor0 == g[mult].operands[0] && f.factor1 == g[mult].operands[1]
    ensures var g1 := g + [MNode(InsertLOHI, [f.accLo, f.accHi]),
                           MNode(FusedOp(isSub, f.isUnsigned), [f.factor0, f.factor1, MVal(|g|, 0)])];
      Uses(g, v) == 0 ==> Uses(g1, v) == 0
  {
    var n0 := MNode(InsertLOHI, [f.accLo, f.accHi]);
    var n1 := MNode(FusedOp(isSub, f.isUnsigned), [f.factor0, f.factor1, MVal(|g|, 0)]);
    assert g + [n0, n1] == (g + [n0]) + [n1];
    if Uses(g, v) == 0 {
      UsesPositive(g, carry, 0);
      UsesPositive(g, carry, 1);
      UsesPositive(g, top, 0);
      UsesPositive(g, top, 1);
      UsesPositive(g, mult, 0);
      UsesPositive(g, mult, 1);
      CountInAbsent(n0.operands, v);
      CountInAbsent(n1.operands, v);
      UsesAppend(g, n0, v);
      UsesAppend(g + [n0], n1, v);
    }
  }

  const Word := 0x1_0000_0000
  const DoubleWord := 0x1_0000_0000_0000_0000

  /** The arithmetic meaning of the MADD rewrite, apart from the graph:
      ADDC adds the low product half to LO
      and produces a carry, ADDE adds the high half, HI and the carry; the
      pair is the 64-bit sum of the accumulator HI:LO and the product. */
  lemma MaddFusionExact(p: nat, accLo: nat, accHi: nat)
    requires p < DoubleWord && accLo < Word && accHi < Word
    ensures var sumLo := p % Word + accLo;
      var lo := sumLo % Word;
      var carry := sumLo / Word;
      var hi := (p / Word + accHi + carry) % Word;
      hi * Word + lo == (accHi * Word + accLo + p) % DoubleWord
  {
  }

  /** The arithmetic meaning of the MSUB rewrite, apart from the graph:
      SUBC subtracts the low product half
      from LO with a borrow, SUBE subtracts the high half and the borrow
      from HI; the pair is the 64-bit difference. */
  lemma MsubFusionExact(p: nat, accLo: nat, accHi: nat)
    requires p < DoubleWord && accLo < Word && accHi < Word
    ensures var lo := (accLo - p % Word) % Word;
      var borrow := if accLo < p % Word then 1 else 0;
      var hi := (accHi - p / Word - borrow) % Word;
      hi * Word + lo == (accHi * Word + accLo - p) % DoubleWord
  {
  }

  /** The 64-bit pattern SMUL_LOHI (signed) or UMUL_LOHI (unsigned) gives
      for two 32-bit factors. */
  function ProductBits(isUnsigned: bool, a: nat, b: nat): (p: nat)
    requires a < Word && b < Word
    ensures p < DoubleWord
    ensures isUnsigned ==> p == a * b
  {
    if isUnsigned then
      MulMonotone(a, Word, b);
      MulMonotone(Word, Word, a + 1);
      a * b
    else (SignedOf(Word, a) * SignedOf(Word, b)) % DoubleWord
  }

  /** MADD leaves in HI:LO what the ADDC/ADDE pair it replaces computed:
      for any 32-bit values of the fused node's factors and accumulator
      halves, ADDC adding the multiply's low half to accLo and ADDE adding
      its high half and the carry to accHi give the 64-bit sum of the
      accumulator and the product. */
  lemma SelectMaddExact(g: seq<MNode>, adde: nat, val: MVal -> nat)
    requires WellFormed(g) && adde < |g| && g[adde].op == ADDE && SelectMadd(g, adde).Some?
    requires var f := SelectMadd(g, adde).value;
      val(f.factor0) < Word && val(f.factor1) < Word && val(f.accLo) < Word && val(f.accHi) < Word
    ensures var f := SelectMadd(g, adde).value;
      var p := ProductBits(f.isUnsigned, val(f.factor0), val(f.factor1));
      var mult := UnitResult(I32, if f.isUnsigned then Multu else Mult, val(f.factor0), val(f.factor1));
      var sumLo := mult.0 + val(f.accLo);
      var hi := (mult.1 + val(f.accHi) + sumLo / Word) % Word;
      hi * Word + sumLo % Word == (val(f.accHi) * Word + val(f.accLo) + p) % DoubleWord
  {
    var f := SelectMadd(g, adde).value;
    var p := ProductBits(f.isUnsigned, val(f.factor0), val(f.factor1));
    assert UnitResult(I32, if f.isUnsigned then Multu else Mult, val(f.factor0), val(f.factor1)) == (p % Word, p / Word);
    MaddFusionExact(p, val(f.accLo), val(f.accHi));
  }

  /** MSUB leaves in HI:LO what the SUBC/SUBE pair it replaces computed:
      SUBC subtracting the multiply's low half from accLo and SUBE
      subtracting its high half and the borrow from accHi give the 64-bit
      difference of the accumulator and the product. */
  lemma SelectMsubExact(g: seq<MNode>, sube: nat, val: MVal -> nat)
    requires WellFormed(g) && sube < |g| && g[sube].op == SUBE && SelectMsub(g, sube).Some?
    requires var f := SelectMsub(g, sube).value;
      val(f.factor0) < Word && val(f.factor1) < Word && val(f.accLo) < Word && val(f.accHi) < Word
    ensures var f := SelectMsub(g, sube).value;
      var p := ProductBits(f.isUnsigned, val(f.factor0), val(f.factor1));
      var mult := UnitResult(I32, if f.isUnsigned then Multu else Mult, val(f.factor0), val(f.factor1));
      var borrow := if val(f.accLo) < mult.0 then 1 else 0;
      var hi := (val(f.accHi) - mult.1 - borrow) % Word;
      hi * Word + (val(f.accLo) - mult.0) % Word == (val(f.accHi) * Word + val(f.accLo) - p) % DoubleWord
  {
    var f := SelectMsub(g, sube).value;
    var p := ProductBits(f.isUnsigned, val(f.factor0), val(f.factor1));
    assert UnitResult(I32, if f.isUnsigned then Multu else Mult, val(f.factor0), val(f.factor1)) == (p % Word, p / Word);
    MsubFusionExact(p, val(f.accLo), val(f.accHi));
  }

  // ---------------------------------------------------------------------
  // lowerMulDiv
  // ---------------------------------------------------------------------

  /** The generic nodes lowered to the HI/LO unit. */
  datatype MulDivOp = SmulLoHi | UmulLoHi | Mulhs | Mulhu | Mul | Sdivrem | Udivrem

  /** The unit operations: signed and unsigned multiply, signed and
      unsigned divide. */
  datatype HiLoOp = Mult | Multu | DivRem | DivRemU

  datatype Half = LoHalf | HiHalf

  /** The operand types the constructor marks Custom for these nodes. */
  datatype IntWidth = I32 | I64

  /** 2^32 or 2^64: the modulus of one operand, and of each of HI and LO. */
  function WordOf(t: IntWidth): (m: nat)
    ensures m >= 2 && m % 2 == 0
  {
    if t == I32 then Word else DoubleWord
  }

  /** The constructor's table: which of these nodes, at which operand type,
      reach LowerOperation (Custom); the 64-bit multiplications only on a
      64-bit subtarget. */
  predicate IsCustom(op: MulDivOp, t: IntWidth, hasMips64: bool) {
    match t
    case I32 => op != Mul
    case I64 => op in {Sdivrem, Udivrem} || (hasMips64 && op in {Mulhs, Mulhu, Mul})
  }

  /** LowerOperation's table and lowerMulDiv: the unit operation, and the
      halves read back as the node's results, in result order. */
  function LowerMulDiv(op: MulDivOp): (r: (HiLoOp, seq<Half>))
    ensures 1 <= |r.1| <= 2
  {
    match op
    case SmulLoHi => (Mult, [LoHalf, HiHalf])
    case UmulLoHi => (Multu, [LoHalf, HiHalf])
    case Mulhs => (Mult, [HiHalf])
    case Mulhu => (Multu, [HiHalf])
    case Mul => (Mult, [LoHalf])
    case Sdivrem => (DivRem, [LoHalf, HiHalf])
    case Udivrem => (DivRemU, [LoHalf, HiHalf])
  }

  /** The signed value of a bit pattern below the modulus `m`. */
  function SignedOf(m: nat, a: nat): int {
    if a >= m / 2 then a - m else a
  }

  /** Division truncating toward zero, as the hardware and C do. */
  function TruncDiv(a: int, b: int): int
    requires b != 0
  {
    var q := (if a < 0 then -a else a) / (if b < 0 then -b else b);
    if (a < 0) == (b < 0) then q else -q
  }

  function TruncRem(a: int, b: int): int
    requires b != 0
  {
    a - b * TruncDiv(a, b)
  }

  /** What the unit leaves in LO and HI for operands of type `t`: the
      double-width product split over the pair, or the quotient and the
      remainder. */
  function UnitResult(t: IntWidth, u: HiLoOp, a: nat, b: nat): (lohi: (nat, nat))
    requires a < WordOf(t) && b < WordOf(t)
    requires (u == DivRem || u == DivRemU) ==> b != 0
  {
    var m := WordOf(t);
    match u
    case Mult => Split(m, (SignedOf(m, a) * SignedOf(m, b)) % (m * m))
    case Multu => Split(m, a * b)
    case DivRem => SignedDivRem(m, a, b)
    case DivRemU => (a / b, a % b)
  }

  /** A product as its low and high words. */
  function Split(m: nat, p: nat): (nat, nat)
    requires m > 0
  {
    (p % m, p / m)
  }

  /** The signed quotient and remainder of two bit patterns, as bit
      patterns. */
  function SignedDivRem(m: nat, a: nat, b: nat): (nat, nat)
    requires m >= 2 && a < m && 0 < b < m
  {
    (TruncDiv(SignedOf(m, a), SignedOf(m, b)) % m, TruncRem(SignedOf(m, a), SignedOf(m, b)) % m)
  }

  function Read(lohi: (nat, nat), h: Half): nat {
    if h == LoHalf then lohi.0 else lohi.1
  }

  /** The results of the generic node, from the operation's own definition
      on bit patterns of type `t` (multiplications as exact products cut or
      shifted, divisions truncating toward zero). */
  function GenericResults(t: IntWidth, op: MulDivOp, a: nat, b: nat): seq<nat>
    requires a < WordOf(t) && b < WordOf(t)
    requires (op == Sdivrem || op == Udivrem) ==> b != 0
  {
    var m := WordOf(t);
    var sa, sb := SignedOf(m, a), SignedOf(m, b);
    match op
    case SmulLoHi => [(sa * sb) % m, ((sa * sb) / m) % m]
    case UmulLoHi => [(a * b) % m, ((a * b) / m) % m]
    case Mulhs => [((sa * sb) / m) % m]
    case Mulhu => [((a * b) / m) % m]
    case Mul => [(a * b) % m]
    case Sdivrem => [TruncDiv(sa, sb) % m, TruncRem(sa, sb) % m]
    case Udivrem => [(a / b) % m, (a % b) % m]
  }

  /** Reading the unit back: the halves the lowering selects, in order. */
  function ReadBack(t: IntWidth, op: MulDivOp, a: nat, b: nat): (results: seq<nat>)
    requires a < WordOf(t) && b < WordOf(t)
    requires (op == Sdivrem || op == Udivrem) ==> b != 0
    ensures |results| == |LowerMulDiv(op).1|
  {
    var (u, halves) := LowerMulDiv(op);
    var lohi := UnitResult(t, u, a, b);
    seq(|halves|, i requires 0 <= i < |halves| => Read(lohi, halves[i]))
  }

  lemma DivUnique(a: int, m: int, q: int, r: int)
    requires m > 0 && 0 <= r < m && a == q * m + r
    ensures a / m == q
  {
    Powers.ModUnique(a, m, q, r);
    assert a == (a / m) * m + a % m;
    assert (a / m - q) * m == 0;
  }

  /** Cutting to the double width does not change the low word. */
  lemma LowWordOfCut(x: int, m: nat)
    requires m > 0
    ensures (x % (m * m)) % m == x % m
  {
    var mm := m * m;
    var q := x / mm;
    assert x == x % mm + mm * q;
    assert mm * q == (q * m) * m;
    MipsConstMult.ModShift(x % mm, q * m, m);
  }

  /** The high word of the double-width cut is the product shifted right by
      one word, cut to one word. */
  lemma HighWordOfCut(x: int, m: nat)
    requires m > 0
    ensures (x % (m * m)) / m == (x / m) % m
  {
    var mm := m * m;
    var q := x / mm;
    var r := x % mm;
    var h := r / m;
    var l := r % m;
    assert r == h * m + l;
    assert h < m by {
      if h >= m {
        MulMonotone(m, h, m);
      }
    }
    assert x == mm * q + r;
    assert mm * q == (q * m) * m;
    assert x == (q * m + h) * m + l;
    DivUnique(x, m, q * m + h, l);
    Powers.ModUnique(q * m + h, m, q, h);
  }

  lemma MulMonotone(a: nat, b: nat, c: nat)
    requires b >= c
    ensures a * b >= a * c
  {
    MulNonNegative(a, b - c);
  }

  /** The low word of a product does not depend on whether the factors are
      read as signed or unsigned, which is why MUL can use the signed MULT. */
  lemma SignedLowWord(m: nat, a: nat, b: nat)
    requires m > 0 && a < m && b < m
    ensures (SignedOf(m, a) * SignedOf(m, b)) % m == (a * b) % m
  {
    var sa, sb := SignedOf(m, a), SignedOf(m, b);
    var k: int;
    if a >= m / 2 && b >= m / 2 {
      k := m - a - b;
      BothShifted(a, b, m);
    } else if a >= m / 2 {
      k := -(b as int);
      OneShifted(a, b, m);
    } else if b >= m / 2 {
      k := -(a as int);
      OneShifted(b, a, m);
    } else {
      k := 0;
    }
    assert sa * sb == a * b + k * m;
    MipsConstMult.ModShift(a * b, k, m);
  }

  lemma OneShifted(a: int, b: int, m: int)
    ensures (a - m) * b == a * b + (-b) * m
  {
  }

  lemma BothShifted(a: int, b: int, m: int)
    ensures (a - m) * (b - m) == a * b + (m - a - b) * m
  {
  }

  lemma MulNonNegative(a: int, b: int)
    requires a >= 0 && b >= 0
    ensures a * b >= 0
  {
  }

  lemma UnsignedProductFits(a: nat, b: nat, m: nat)
    requires a < m && b < m
    ensures a * b < m * m
  {
    MulNonNegative(a, m - 1 - b);
    assert a * (m - 1) - a * b == a * (m - 1 - b);
    MulNonNegative(m - 1 - a, m - 1);
    assert (m - 1) * (m - 1) - a * (m - 1) == (m - 1 - a) * (m - 1);
  }

  /** MULT leaves the low word of the signed product in LO and its high
      word in HI. */
  lemma MultHalves(t: IntWidth, a: nat, b: nat)
    requires a < WordOf(t) && b < WordOf(t)
    ensures var m := WordOf(t);
      var x := SignedOf(m, a) * SignedOf(m, b);
      UnitResult(t, Mult, a, b) == (x % m, (x / m) % m)
  {
    var m := WordOf(t);
    var x := SignedOf(m, a) * SignedOf(m, b);
    LowWordOfCut(x, m);
    HighWordOfCut(x, m);
  }

  /** MULTU leaves the low word of the unsigned product in LO and its high
      word in HI. */
  lemma MultuHalves(t: IntWidth, a: nat, b: nat)
    requires a < WordOf(t) && b < WordOf(t)
    ensures var m := WordOf(t);
      UnitResult(t, Multu, a, b) == ((a * b) % m, ((a * b) / m) % m)
  {
    var m := WordOf(t);
    UnsignedProductFits(a, b, m);
    QuotientBelow(a * b, m);
    Powers.ModUnique(a * b / m, m, 0, a * b / m);
  }

  lemma QuotientBelow(x: nat, m: nat)
    requires m > 0 && x < m * m
    ensures x / m < m
  {
    var q := x / m;
    assert x == m * q + x % m;
    if q >= m {
      MulMonotone(m, q, m);
    }
  }

  /** The read-back as an explicit list of one or two halves. */
  lemma ReadBackIs(t: IntWidth, op: MulDivOp, a: nat, b: nat)
    requires a < WordOf(t) && b < WordOf(t)
    requires (op == Sdivrem || op == Udivrem) ==> b != 0
    ensures var (u, halves) := LowerMulDiv(op);
      var lohi := UnitResult(t, u, a, b);
      ReadBack(t, op, a, b)
        == if |halves| == 1 then [Read(lohi, halves[0])] else [Read(lohi, halves[0]), Read(lohi, halves[1])]
  {
  }

  /** lowerMulDiv is exact: for every operation, at 32 and at 64 bits, and
      all operands of that width, the halves read back from the HI/LO unit
      are the generic node's results. */
  lemma LowerMulDivCorrect(t: IntWidth, op: MulDivOp, a: nat, b: nat)
    requires a < WordOf(t) && b < WordOf(t)
    requires (op == Sdivrem || op == Udivrem) ==> b != 0
    ensures ReadBack(t, op, a, b) == GenericResults(t, op, a, b)
  {
    var m := WordOf(t);
    ReadBackIs(t, op, a, b);
    match op
    case SmulLoHi =>
      MultHalves(t, a, b);
    case Mulhs =>
      MultHalves(t, a, b);
    case Mul =>
      MultHalves(t, a, b);
      SignedLowWord(m, a, b);
    case UmulLoHi =>
      MultuHalves(t, a, b);
    case Mulhu =>
      MultuHalves(t, a, b);
    case Sdivrem =>
      assert UnitResult(t, DivRem, a, b) == SignedDivRem(m, a, b);
    case Udivrem =>
      UnsignedDivRemFit(a, b, m);
  }

  /** Every node the constructor hands to lowerMulDiv, at the type it is
      marked Custom for, is lowered exactly. */
  lemma CustomMulDivExact(op: MulDivOp, t: IntWidth, hasMips64: bool, a: nat, b: nat)
    requires IsCustom(op, t, hasMips64)
    requires a < WordOf(t) && b < WordOf(t)
    requires (op == Sdivrem || op == Udivrem) ==> b != 0
    ensures ReadBack(t, op, a, b) == GenericResults(t, op, a, b)
  {
    LowerMulDivCorrect(t, op, a, b);
  }

  /** The unsigned quotient and remainder already fit in one word. */
  lemma UnsignedDivRemFit(a: nat, b: nat, m: nat)
    requires a < m && 0 < b < m
    ensures (a / b) % m == a / b && (a % b) % m == a % b
  {
    var q, r := a / b, a % b;
    assert q <= a by {
      Powers.MulAtLeast(b, q + 1);
    }
    assert r < b;
    Powers.ModUnique(q, m, 0, q);
    Powers.ModUnique(r, m, 0, r);
  }
}

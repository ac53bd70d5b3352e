/** Lowering of VECTOR_SHUFFLE for the MIPS SIMD (MSA) extension: the
    classifiers that recognise the masks of the fixed-pattern shuffle
    instructions, the SHF immediate encoder, the operand choice of the
    general VSHF instruction, and the order in which they are tried.

    A mask is the sequence of lane indices of the shuffle: index i < n picks
    lane i of the first operand, n <= i < 2n picks lane i - n of the second,
    and -1 is an undefined lane that matches anything. */
module MipsShuffle {
  import opened Wrappers

  /** The undefined mask entry. */
  const Undef := -1

  // ---------------------------------------------------------------------
  // SHF
  // ---------------------------------------------------------------------

  /** The index of position j relative to the start of its 4-lane block. */
  function Rel(m: seq<int>, j: nat): int
    requires j < |m|
  {
    m[j] - 4 * (j / 4)
  }

  /** Position j is undefined or refers to a lane of its own block. */
  predicate InOwnBlock(m: seq<int>, j: nat)
    requires j < |m|
  {
    m[j] == Undef || 0 <= Rel(m, j) < 4
  }

  /** Lane `i` (0..3) is undefined in every block. */
  predicate LaneUndef(m: seq<int>, i: nat) {
    forall j :: 0 <= j < |m| && j % 4 == i ==> m[j] == Undef
  }

  /** The masks SHF can implement: at least four entries, every defined
      entry inside its own block, and the defined entries of one lane
      agreeing on the relative index. */
  predicate ShfForm(m: seq<int>) {
    && |m| >= 4
    && (forall j :: 0 <= j < |m| ==> InOwnBlock(m, j))
    && (forall j, k :: (0 <= j < |m| && 0 <= k < |m| && j % 4 == k % 4
          && m[j] != Undef && m[k] != Undef) ==> Rel(m, j) == Rel(m, k))
  }

  /** Lane `i` on its own: its defined entries stay in their blocks and
      agree on the relative index `v`, which is Undef exactly when the
      lane has no defined entry. */
  predicate LaneIs(m: seq<int>, i: nat, v: int) {
    && (forall j :: 0 <= j < |m| && j % 4 == i ==> InOwnBlock(m, j))
    && (forall j :: 0 <= j < |m| && j % 4 == i && m[j] != Undef ==> Rel(m, j) == v)
    && (v == Undef <==> LaneUndef(m, i))
  }

  /** Lane `i` is consistent: some relative index describes it. */
  ghost predicate LaneOk(m: seq<int>, i: nat) {
    exists u :: LaneIs(m, i, u)
  }

  /** The 2-bit field `i` of an SHF immediate. */
  function Digit(imm: nat, i: nat): (d: nat)
    ensures d < 4
  {
    if i == 0 then imm % 4 else Digit(imm / 4, i - 1)
  }

  /** The immediate whose 2-bit fields are the four lane values. */
  function Pack(d0: nat, d1: nat, d2: nat, d3: nat): nat {
    d0 + 4 * (d1 + 4 * (d2 + 4 * d3))
  }

  /** The four fields of an immediate, read through the recursion. */
  lemma DigitsUnfold(imm: nat)
    ensures Digit(imm, 0) == imm % 4
    ensures Digit(imm, 1) == imm / 4 % 4
    ensures Digit(imm, 2) == imm / 4 / 4 % 4
    ensures Digit(imm, 3) == imm / 4 / 4 / 4 % 4
  {
    assert Digit(imm, 3) == Digit(imm / 4, 2) == Digit(imm / 4 / 4, 1) == Digit(imm / 4 / 4 / 4, 0);
  }

  lemma PackDigits(d0: nat, d1: nat, d2: nat, d3: nat)
    requires d0 < 4 && d1 < 4 && d2 < 4 && d3 < 4
    ensures var imm := Pack(d0, d1, d2, d3);
      imm < 256 && Digit(imm, 0) == d0 && Digit(imm, 1) == d1 &&
      Digit(imm, 2) == d2 && Digit(imm, 3) == d3
  {
    var imm := Pack(d0, d1, d2, d3);
    DigitsUnfold(imm);
    assert imm / 4 == d1 + 4 * (d2 + 4 * d3);
    assert imm / 4 / 4 == d2 + 4 * d3;
    assert imm / 4 / 4 / 4 == d3;
  }

  /** The value a lane slot contributes: an undefined slot counts as 0. */
  function SlotValue(v: int): nat {
    if 0 <= v < 4 then v else 0
  }

  /** What the scan of lane `i` knows after the positions below `j`: they
      stay in their blocks, the defined ones agree on `v`, and `v` is Undef
      exactly when all of them are undefined. */
  predicate Scanned(m: seq<int>, i: nat, j: nat, v: int) {
    && (forall k :: 0 <= k < j && k < |m| && k % 4 == i ==> InOwnBlock(m, k))
    && (forall k :: 0 <= k < j && k < |m| && k % 4 == i && m[k] != Undef ==> Rel(m, k) == v)
    && (v == Undef <==> forall k :: 0 <= k < j && k < |m| && k % 4 == i ==> m[k] == Undef)
  }

  /** Before the scan nothing is known and nothing is defined. */
  lemma ScanStart(m: seq<int>, i: nat)
    requires i < 4
    ensures Scanned(m, i, i, Undef)
  {
    forall k | 0 <= k < i
      ensures k % 4 != i
    {
      assert k % 4 == k;
    }
  }

  /** One more position of the lane that fits keeps the scan's facts, with
      the lane's index fixed at the first defined entry. */
  lemma ScanStep(m: seq<int>, i: nat, j: nat, v: int)
    requires j < |m| && j % 4 == i && Scanned(m, i, j, v)
    requires InOwnBlock(m, j) && (v == Undef || m[j] == Undef || Rel(m, j) == v)
    ensures Scanned(m, i, j + 4, if v == Undef && m[j] != Undef then Rel(m, j) else v)
  {
    forall k | j < k < j + 4 && k < |m|
      ensures k % 4 != i
    {
      var q := j / 4;
      assert j == 4 * q + i;
      if k < 4 * q + 4 {
        assert k == 4 * q + (k - 4 * q) && k - 4 * q < 4;
      } else {
        assert k == 4 * (q + 1) + (k - 4 * q - 4) && k - 4 * q - 4 < i;
      }
    }
  }

  /** Once the scan has passed the end, it has described the whole lane. */
  lemma ScanDone(m: seq<int>, i: nat, j: nat, v: int)
    requires j >= |m| && Scanned(m, i, j, v)
    ensures LaneIs(m, i, v)
  {
  }

  /** A position of the lane outside its block, or two defined positions
      that disagree, make the lane inconsistent. */
  lemma ScanConflict(m: seq<int>, i: nat, j: nat, v: int)
    requires j < |m| && j % 4 == i && Scanned(m, i, j, v)
    requires !InOwnBlock(m, j) || (v != Undef && m[j] != Undef && Rel(m, j) != v)
    ensures !LaneOk(m, i)
  {
    if InOwnBlock(m, j) {
      var k :| 0 <= k < j && k < |m| && k % 4 == i && m[k] != Undef;
      assert Rel(m, k) != Rel(m, j);
    }
  }

  /** The inner loop of lowerVECTOR_SHUFFLE_SHF for lane `i`: visits the
      positions i, i+4, i+8, ..., fixing the lane's relative index at the
      first defined entry and giving up on an entry outside its block or
      one that disagrees. */
  method ScanLane(m: seq<int>, i: nat) returns (ok: bool, v: int)
    requires i < 4
    ensures ok <==> LaneOk(m, i)
    ensures ok ==> LaneIs(m, i, v) && (v == Undef || 0 <= v < 4)
  {
    v := Undef;
    var j := i;
    ScanStart(m, i);
    while j < |m|
      invariant i <= j && j % 4 == i
      invariant v == Undef || 0 <= v < 4
      invariant Scanned(m, i, j, v)
      decreases |m| - j
    {
      var idx := m[j];
      if idx != Undef {
        idx := idx - 4 * (j / 4);
        if idx < 0 || idx >= 4 {
          ScanConflict(m, i, j, v);
          return false, v;
        }
      }
      if !(v == Undef || idx == Undef || idx == v) {
        ScanConflict(m, i, j, v);
        return false, v;
      }
      ScanStep(m, i, j, v);
      if v == Undef {
        v := idx;
      }
      j := j + 4;
    }
    ScanDone(m, i, j, v);
    return true, v;
  }

  /** lowerVECTOR_SHUFFLE_SHF: scans the four lanes, then packs their
      values into the immediate, lane i in bits 2i and 2i+1, an undefined
      lane counting as 0. */
  method LowerShf(m: seq<int>) returns (r: Option<nat>)
    ensures r.Some? <==> ShfForm(m)
    ensures r.Some? ==> r.value < 256
    ensures r.Some? ==> forall j :: 0 <= j < |m| && m[j] != Undef ==>
      m[j] == 4 * (j / 4) + Digit(r.value, j % 4)
    ensures r.Some? ==> forall i :: 0 <= i < 4 && LaneUndef(m, i) ==> Digit(r.value, i) == 0
  {
    if |m| < 4 {
      return None;
    }
    var shf: seq<int> := [];
    var i := 0;
    while i < 4
      invariant 0 <= i <= 4 && |shf| == i
      invariant forall l :: 0 <= l < i ==> LaneIs(m, l, shf[l]) && (shf[l] == Undef || 0 <= shf[l] < 4)
      invariant forall l :: 0 <= l < i ==> LaneOk(m, l)
    {
      var ok, v := ScanLane(m, i);
      if !ok {
        ShfFormLanes(m);
        return None;
      }
      shf := shf + [v];
      i := i + 1;
    }
    ShfFormLanes(m);
    var imm := Pack(SlotValue(shf[0]), SlotValue(shf[1]), SlotValue(shf[2]), SlotValue(shf[3]));
    PackDigits(SlotValue(shf[0]), SlotValue(shf[1]), SlotValue(shf[2]), SlotValue(shf[3]));
    PackedLanes(m, shf, imm);
    return Some(imm);
  }

  /** The packed immediate describes the mask: every defined entry is its
      block's start plus its lane's field, and an undefined lane's field
      is 0. */
  lemma PackedLanes(m: seq<int>, shf: seq<int>, imm: nat)
    requires |shf| == 4
    requires forall l :: 0 <= l < 4 ==> LaneIs(m, l, shf[l]) && (shf[l] == Undef || 0 <= shf[l] < 4)
    requires Digit(imm, 0) == SlotValue(shf[0]) && Digit(imm, 1) == SlotValue(shf[1])
    requires Digit(imm, 2) == SlotValue(shf[2]) && Digit(imm, 3) == SlotValue(shf[3])
    ensures forall j :: 0 <= j < |m| && m[j] != Undef ==> m[j] == 4 * (j / 4) + Digit(imm, j % 4)
    ensures forall i :: 0 <= i < 4 && LaneUndef(m, i) ==> Digit(imm, i) == 0
  {
    assert forall l :: 0 <= l < 4 ==> Digit(imm, l) == SlotValue(shf[l]);
    forall j | 0 <= j < |m| && m[j] != Undef
      ensures m[j] == 4 * (j / 4) + Digit(imm, j % 4)
    {
      var l := j % 4;
      assert LaneIs(m, l, shf[l]);
      assert Rel(m, j) == shf[l];
    }
  }

  /** ShfForm is exactly "every one of the four lanes is consistent". */
  lemma ShfFormLanes(m: seq<int>)
    requires |m| >= 4
    ensures ShfForm(m) <==> forall i :: 0 <= i < 4 ==> LaneOk(m, i)
  {
    if ShfForm(m) {
      forall i | 0 <= i < 4
        ensures LaneOk(m, i)
      {
        if LaneUndef(m, i) {
          assert LaneIs(m, i, Undef);
        } else {
          var k :| 0 <= k < |m| && k % 4 == i && m[k] != Undef;
          assert InOwnBlock(m, k);
          assert LaneIs(m, i, Rel(m, k));
        }
      }
    }
    if forall i :: 0 <= i < 4 ==> LaneOk(m, i) {
      forall j | 0 <= j < |m|
        ensures InOwnBlock(m, j)
      {
        assert LaneOk(m, j % 4);
        var u :| LaneIs(m, j % 4, u);
      }
      forall j, k | 0 <= j < |m| && 0 <= k < |m| && j % 4 == k % 4 && m[j] != Undef && m[k] != Undef
        ensures Rel(m, j) == Rel(m, k)
      {
        assert LaneOk(m, j % 4);
        var u :| LaneIs(m, j % 4, u);
      }
    }
  }

  /** The worked example of the source: <3,2,1,0,7,6,5,4> reverses each
      block of four and packs to 3 + (2 << 2) + (1 << 4) + (0 << 6) = 27. */
  method ShfExample() returns (r: Option<nat>)
    ensures r == Some(27)
  {
    var m := [3, 2, 1, 0, 7, 6, 5, 4];
    ReversalIsShf(m);
    r := LowerShf(m);
    var imm := r.value;
    assert m[0] == 3 && m[1] == 2 && m[2] == 1 && m[3] == 0;
    assert Digit(imm, 0) == 3 && Digit(imm, 1) == 2 && Digit(imm, 2) == 1 && Digit(imm, 3) == 0;
    DigitsOf27(imm);
  }

  /** Reversing each block of four is an SHF mask. */
  lemma ReversalIsShf(m: seq<int>)
    requires m == [3, 2, 1, 0, 7, 6, 5, 4]
    ensures ShfForm(m)
  {
    forall j | 0 <= j < |m|
      ensures Rel(m, j) == 3 - j % 4
    {
      assert j < 4 || 4 <= j < 8;
    }
    forall j, k | 0 <= j < |m| && 0 <= k < |m| && j % 4 == k % 4 && m[j] != Undef && m[k] != Undef
      ensures Rel(m, j) == Rel(m, k)
    {
    }
  }

  /** The immediate with fields 3, 2, 1, 0 is 27. */
  lemma DigitsOf27(imm: nat)
    requires imm < 256
    requires Digit(imm, 0) == 3 && Digit(imm, 1) == 2 && Digit(imm, 2) == 1 && Digit(imm, 3) == 0
    ensures imm == 27
  {
    PackDigits(3, 2, 1, 0);
    assert Pack(3, 2, 1, 0) == 27;
    DigitsDetermine(imm, 27);
  }

  /** Two immediates below 256 with the same four fields are equal. */
  lemma DigitsDetermine(a: nat, b: nat)
    requires a < 256 && b < 256
    requires forall i :: 0 <= i < 4 ==> Digit(a, i) == Digit(b, i)
    ensures a == b
  {
    DigitsUnfold(a);
    DigitsUnfold(b);
    var a1, b1 := a / 4, b / 4;
    var a2, b2 := a1 / 4, b1 / 4;
    var a3, b3 := a2 / 4, b2 / 4;
    assert a3 == b3 by {
      assert a1 < 64 && b1 < 64;
      assert a2 < 16 && b2 < 16;
      assert a3 < 4 && b3 < 4;
      assert Digit(a, 3) == Digit(b, 3);
    }
    SameQuarter(a2, b2);
    SameQuarter(a1, b1);
    SameQuarter(a, b);
  }

  /** A number is fixed by its last field and the rest. */
  lemma SameQuarter(x: nat, y: nat)
    requires x % 4 == y % 4 && x / 4 == y / 4
    ensures x == y
  {
  }

  // ---------------------------------------------------------------------
  // ILVEV, ILVOD, ILVL, ILVR, PCKEV, PCKOD
  // ---------------------------------------------------------------------

  /** The fixed-pattern shuffles, in the order they are tried. */
  datatype FixedShuffle = ILVEV | ILVOD | ILVL | ILVR | PCKEV | PCKOD

  /** The position of a fixed-pattern shuffle in the trial order. */
  function Rank(k: FixedShuffle): nat {
    match k
    case ILVEV => 0
    case ILVOD => 1
    case ILVL => 2
    case ILVR => 3
    case PCKEV => 4
    case PCKOD => 5
  }

  /** The lane index the instruction's form puts at position i of an
      n-lane mask: ILVEV <0, n, 2, n+2, ...>, ILVOD <1, n+1, 3, n+3, ...>,
      ILVL <0, n, 1, n+1, ...>, ILVR <n/2, n+n/2, n/2+1, ...>,
      PCKEV <0, 2, 4, ...>, PCKOD <1, 3, 5, ...>. */
  function Expected(k: FixedShuffle, n: nat, i: nat): int {
    match k
    case ILVEV => if i % 2 == 0 then i else n + i - 1
    case ILVOD => if i % 2 == 0 then i + 1 else n + i
    case ILVL => if i % 2 == 0 then i / 2 else n + i / 2
    case ILVR => if i % 2 == 0 then n / 2 + i / 2 else n + n / 2 + i / 2
    case PCKEV => 2 * i
    case PCKOD => 2 * i + 1
  }

  /** The mask has the instruction's form, undefined entries matching
      anything. */
  predicate FitsForm(k: FixedShuffle, m: seq<int>) {
    forall i :: 0 <= i < |m| ==> m[i] == Undef || m[i] == Expected(k, |m|, i)
  }

  /** The loop shared by the four interleave lowerings: even positions must
      follow ws, ws+step, ... and odd positions wt, wt+step, .... */
  method MatchInterleave(m: seq<int>, ws: int, wt: int, step: int) returns (ok: bool)
    requires |m| % 2 == 0
    ensures ok <==> forall i :: 0 <= i < |m| ==>
      m[i] == Undef || m[i] == (if i % 2 == 0 then ws else wt) + step * (i / 2)
  {
    var wsIdx := ws;
    var wtIdx := wt;
    var i := 0;
    while i < |m|
      invariant 0 <= i <= |m| && i % 2 == 0
      invariant wsIdx == ws + step * (i / 2) && wtIdx == wt + step * (i / 2)
      invariant forall p :: 0 <= p < i ==>
        m[p] == Undef || m[p] == (if p % 2 == 0 then ws else wt) + step * (p / 2)
    {
      if m[i] != Undef && m[i] != wsIdx {
        return false;
      }
      if m[i + 1] != Undef && m[i + 1] != wtIdx {
        return false;
      }
      wsIdx := wsIdx + step;
      wtIdx := wtIdx + step;
      i := i + 2;
    }
    return true;
  }

  /** The loop shared by the two pack lowerings: position i must be
      start + 2i. */
  method MatchPack(m: seq<int>, start: int) returns (ok: bool)
    ensures ok <==> forall i :: 0 <= i < |m| ==> m[i] == Undef || m[i] == start + 2 * i
  {
    var idx := start;
    var i := 0;
    while i < |m|
      invariant 0 <= i <= |m|
      invariant idx == start + 2 * i
      invariant forall p :: 0 <= p < i ==> m[p] == Undef || m[p] == start + 2 * p
    {
      if m[i] != Undef && m[i] != idx {
        return false;
      }
      idx := idx + 2;
      i := i + 1;
    }
    return true;
  }

  /** lowerVECTOR_SHUFFLE_ILVEV, _ILVOD, _ILVL, _ILVR, _PCKEV and _PCKOD:
      each accepts exactly the masks of its form; the mask has as many
      entries as the vector has lanes. */
  method LowerFixed(k: FixedShuffle, m: seq<int>) returns (ok: bool)
    requires |m| % 2 == 0
    ensures ok <==> FitsForm(k, m)
  {
    var n := |m|;
    match k {
      case ILVEV => ok := MatchInterleave(m, 0, n, 2);
      case ILVOD => ok := MatchInterleave(m, 1, n + 1, 2);
      case ILVL => ok := MatchInterleave(m, 0, n, 1);
      case ILVR => ok := MatchInterleave(m, n / 2, n + n / 2, 1);
      case PCKEV => ok := MatchPack(m, 0);
      case PCKOD => ok := MatchPack(m, 1);
    }
    assert forall i :: 0 <= i < |m| && i % 2 == 1 ==> 2 * (i / 2) == i - 1;
  }

  // ---------------------------------------------------------------------
  // VSHF and the lowering order
  // ---------------------------------------------------------------------

  /** Some entry picks a lane of the first operand. */
  predicate UsesFirst(m: seq<int>) {
    exists i :: 0 <= i < |m| && 0 <= m[i] < |m|
  }

  /** Some entry picks a lane of the second operand. */
  predicate UsesSecond(m: seq<int>) {
    exists i :: 0 <= i < |m| && |m| <= m[i] < 2 * |m|
  }

  /** The two vector operands VSHF is given: both, or the one used operand
      twice. */
  datatype VshfOperands = BothOperands | FirstTwice | SecondTwice

  /** lowerVECTOR_SHUFFLE_VSHF's operand choice; None is the state the
      source declares unreachable (a mask that uses neither operand). */
  method LowerVshf(m: seq<int>) returns (r: Option<VshfOperands>)
    ensures r == Some(BothOperands) <==> UsesFirst(m) && UsesSecond(m)
    ensures r == Some(FirstTwice) <==> UsesFirst(m) && !UsesSecond(m)
    ensures r == Some(SecondTwice) <==> !UsesFirst(m) && UsesSecond(m)
    ensures r == None <==> !UsesFirst(m) && !UsesSecond(m)
  {
    var n := |m|;
    var using1st := false;
    var using2nd := false;
    var i := 0;
    while i < n
      invariant 0 <= i <= n
      invariant using1st <==> exists p :: 0 <= p < i && 0 <= m[p] < n
      invariant using2nd <==> exists p :: 0 <= p < i && n <= m[p] < 2 * n
    {
      var idx := m[i];
      if 0 <= idx < n {
        using1st := true;
      }
      if n <= idx < 2 * n {
        using2nd := true;
      }
      i := i + 1;
    }
    if using1st && using2nd {
      r := Some(BothOperands);
    } else if using1st {
      r := Some(FirstTwice);
    } else if using2nd {
      r := Some(SecondTwice);
    } else {
      r := None;
    }
  }

  /** A vector type: lane count, lane width in bits, and whether the lanes
      are floating point. */
  datatype VecType = VecType(numElts: nat, eltBits: nat, isFloat: bool)

  predicate Is128Bit(t: VecType) {
    t.numElts * t.eltBits == 128
  }

  /** The vector types of the SIMD unit: lanes of 8, 16, 32 or 64 bits. */
  predicate MsaLaneWidth(t: VecType) {
    t.eltBits == 8 || t.eltBits == 16 || t.eltBits == 32 || t.eltBits == 64
  }

  /** What a shuffle is lowered to. */
  datatype ShuffleLowering =
    | NotLowered
    | Shf(imm: nat)
    | Fixed(kind: FixedShuffle)
    | Vshf(operands: VshfOperands)

  /** A fixed-pattern form fits the mask. */
  ghost predicate SomeFormFits(m: seq<int>) {
    exists k :: FitsForm(k, m)
  }

  /** lowerVECTOR_SHUFFLE: only 128-bit vectors are lowered; the candidates
      are tried in the order SHF, ILVEV, ILVOD, ILVL, ILVR, PCKEV, PCKOD,
      and VSHF takes whatever is left. */
  method LowerVectorShuffle(ty: VecType, m: seq<int>) returns (r: ShuffleLowering)
    requires |m| == ty.numElts && MsaLaneWidth(ty)
    requires forall i :: 0 <= i < |m| ==> Undef <= m[i] < 2 * |m|
    ensures !Is128Bit(ty) ==> r == NotLowered
    ensures Is128Bit(ty) ==> (r.Shf? <==> ShfForm(m))
    ensures r.Shf? ==> forall j :: 0 <= j < |m| && m[j] != Undef ==>
      m[j] == 4 * (j / 4) + Digit(r.imm, j % 4)
    ensures Is128Bit(ty) ==> (r.Fixed? <==> !ShfForm(m) && SomeFormFits(m))
    ensures r.Fixed? ==> FitsForm(r.kind, m)
    ensures r.Fixed? ==> forall k :: Rank(k) < Rank(r.kind) ==> !FitsForm(k, m)
    ensures Is128Bit(ty) ==> (r.Vshf? <==> !ShfForm(m) && !SomeFormFits(m))
    ensures r.Vshf? ==> UsesFirst(m) || UsesSecond(m)
    ensures r.Vshf? ==> (r.operands == BothOperands <==> UsesFirst(m) && UsesSecond(m))
    ensures r.Vshf? ==> (r.operands == SecondTwice <==> !UsesFirst(m))
  {
    if !Is128Bit(ty) {
      return NotLowered;
    }
    assert |m| % 2 == 0;
    var shf := LowerShf(m);
    if shf.Some? {
      return Shf(shf.value);
    }
    var order := [ILVEV, ILVOD, ILVL, ILVR, PCKEV, PCKOD];
    var t := 0;
    while t < |order|
      invariant 0 <= t <= |order|
      invariant forall u :: 0 <= u < t ==> !FitsForm(order[u], m)
    {
      var ok := LowerFixed(order[t], m);
      if ok {
        assert forall k :: Rank(k) < t ==> k == order[Rank(k)];
        return Fixed(order[t]);
      }
      t := t + 1;
    }
    forall k
      ensures !FitsForm(k, m)
    {
      assert k == order[Rank(k)];
    }
    var ops := LowerVshf(m);
    if ops.None? {
      AllUndefFitsIlvev(m);
      assert false;
    }
    return Vshf(ops.value);
  }

  /** The mask of a shuffle that uses neither operand is all undefined, and
      such a mask already fits ILVEV, so VSHF always has an operand. */
  lemma AllUndefFitsIlvev(m: seq<int>)
    requires forall i :: 0 <= i < |m| ==> Undef <= m[i] < 2 * |m|
    requires !UsesFirst(m) && !UsesSecond(m)
    ensures FitsForm(ILVEV, m)
  {
    assert forall i :: 0 <= i < |m| ==> !(0 <= m[i] < |m|) && !(|m| <= m[i] < 2 * |m|);
  }
}

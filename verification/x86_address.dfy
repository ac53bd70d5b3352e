/** The X86 addressing-mode matcher: folding pointer arithmetic into
    base + scale * index + displacement (+ a global or constant-pool
    symbol), and the two queries built on it, SelectAddr and SelectLEAAddr.

    The source's MatchAddress returns `true` for FAILURE and leaves the mode
    as it found it in that case; here it returns `None` on failure and the
    extended mode on success. */
module X86Address {
  import opened Wrappers
  import opened X86Dag

  /** The base slot: empty, a register (a DAG value) or a stack slot. */
  datatype Base = NoBase | RegBase(reg: Val) | FrameBase(index: nat)

  /** The scale factor; the matcher only ever sets 1, 2, 4 or 8. */
  datatype Scale = S1 | S2 | S4 | S8 {
    function Factor(): nat {
      match this
      case S1 => 1
      case S2 => 2
      case S4 => 4
      case S8 => 8
    }

    /** `x` times the factor. */
    function Times(x: nat): nat {
      match this
      case S1 => x
      case S2 => 2 * x
      case S4 => 4 * x
      case S8 => 8 * x
    }
  }

  /** X86ISelAddressMode.  The source's `unsigned` displacement is this
      natural modulo 2^32. */
  datatype AddressMode = AddressMode(
    base: Base, scale: Scale, index: Option<Val>, disp: nat,
    gv: Option<nat>, cp: Option<nat>, align: nat)

  /** At most one of the two symbol slots is set: the operands a mode
      becomes have room for one symbol only. */
  predicate OneSymbol(am: AddressMode) {
    am.gv.None? || am.cp.None?
  }

  /** The mode every query starts from. */
  const EmptyMode := AddressMode(NoBase, S1, None, 0, None, None, 0)

  /** Which OR and Wrapper rules to use: the ones the source has, or the
      ones that keep the address equal to the value (see the findings). */
  datatype Policy = AsWritten | Corrected

  /** The rule every node falls back to: take the base register if it is
      free, else the index with scale 1, else fail. */
  function Default(am: AddressMode, v: Val): (r: Option<AddressMode>)
    ensures r.None? <==> am.base != NoBase && am.index.Some?
  {
    if am.base != NoBase then
      if am.index.None? then Some(am.(index := Some(v), scale := S1)) else None
    else Some(am.(base := RegBase(v)))
  }

  /** A Wrapper whose symbol becomes the mode's symbol.  As written, only
      the slot of the same kind must be free; corrected, the mode must have
      no symbol at all, since the operands can carry only one. */
  function MatchWrapper(p: Policy, g: Graph, sel: set<nat>, v: Val, am: AddressMode): (r: Option<AddressMode>)
    requires v.node < |g| && g[v.node].op.Wrapper?
  {
    var sym := g[v.node].op.sym;
    if v.node !in sel || (am.base.RegBase? && am.index.Some?) then
      match sym
      case PoolSym(cp, align, off) =>
        if am.cp.None? && (p == AsWritten || am.gv.None?) then
          Some(am.(cp := Some(cp), align := align, disp := am.disp + off))
        else Default(am, v)
      case GlobalSym(gv, off) =>
        if am.gv.None? && (p == AsWritten || am.cp.None?) then
          Some(am.(gv := Some(gv), disp := am.disp + off))
        else Default(am, v)
      case ExternalSym => Default(am, v)
    else Default(am, v)
  }

  /** The scale a shift left by 1, 2 or 3 stands for. */
  function ShiftScale(k: nat): Scale {
    if k == 1 then S2 else if k == 2 then S4 else S8
  }

  /** The scale of the index in X*3, X*5 and X*9 written as X + X*scale. */
  function MulScale(k: nat): Scale {
    if k == 3 then S2 else if k == 5 then S4 else S8
  }

  /** The scaled value of a shift by 1, 2 or 3: the add's left operand when
      the shifted value is a single-use add of a constant, else the shifted
      value itself. */
  function MatchShl(g: Graph, sel: set<nat>, v: Val, am: AddressMode): (r: Option<AddressMode>)
    requires WellFormed(g) && v.node < |g| && g[v.node].op == Shl
  {
    var ops := g[v.node].operands;
    var amount := ConstantOf(g, ops[1]);
    if v.node !in sel && am.index.None? && am.scale == S1 && amount.Some?
       && (amount.value == 1 || amount.value == 2 || amount.value == 3)
    then
      var shVal := ops[0];
      var scale := ShiftScale(amount.value);
      var am' := am.(scale := scale);
      if g[shVal.node].op == Add && HasOneUse(g, shVal) && ConstantOf(g, g[shVal.node].operands[1]).Some? then
        // the added constant, scaled with the index
        var c := ConstantOf(g, g[shVal.node].operands[1]).value;
        Some(am'.(index := Some(g[shVal.node].operands[0]), disp := am.disp + scale.Times(c)))
      else Some(am'.(index := Some(shVal)))
    else Default(am, v)
  }

  /** X*3, X*5, X*9 as X + X*2, X + X*4, X + X*8, in an empty mode. */
  function MatchMul(g: Graph, sel: set<nat>, v: Val, am: AddressMode): (r: Option<AddressMode>)
    requires WellFormed(g) && v.node < |g| && g[v.node].op == Mul
  {
    var ops := g[v.node].operands;
    var factor := ConstantOf(g, ops[1]);
    if v.node !in sel && am.base == NoBase && am.index.None? && factor.Some?
       && (factor.value == 3 || factor.value == 5 || factor.value == 9)
    then
      var scale := MulScale(factor.value);
      var mulVal := ops[0];
      if g[mulVal.node].op == Add && HasOneUse(g, mulVal) && ConstantOf(g, g[mulVal.node].operands[1]).Some? then
        var c := ConstantOf(g, g[mulVal.node].operands[1]).value;
        var reg := g[mulVal.node].operands[0];
        // the added constant times the factor, as c + c * scale
        Some(am.(scale := scale, base := RegBase(reg), index := Some(reg), disp := am.disp + (c + scale.Times(c))))
      else
        Some(am.(scale := scale, base := RegBase(mulVal), index := Some(mulVal)))
    else Default(am, v)
  }

  /** The power of two an operand is known to be a multiple of: 2^k for a
      shift left by a constant 1, 2 or 3, else 1. */
  function KnownMultiple(g: Graph, v: Val): (m: nat)
    ensures m == 1 || m == 2 || m == 4 || m == 8
  {
    if v.node < |g| && v.res == 0 && g[v.node].op == Shl && |g[v.node].operands| == 2 then
      var amount := ConstantOf(g, g[v.node].operands[1]);
      if amount == Some(1) then 2
      else if amount == Some(2) then 4
      else if amount == Some(3) then 8
      else 1
    else 1
  }

  /** The OR-as-ADD condition, checked after the other operand matched.
      As written it asks only that the constant is below the scale;
      corrected, also that the other operand's low bits are known to be
      zero where the constant has ones. */
  predicate OrFoldAllowed(p: Policy, g: Graph, c: nat, other: Val, m: AddressMode) {
    && m.gv.None? && m.disp == 0 && c < m.scale.Factor()
    && (p == AsWritten || c < KnownMultiple(g, other))
  }

  /** MatchAddress. */
  function Match(p: Policy, g: Graph, sel: set<nat>, v: Val, am: AddressMode): (r: Option<AddressMode>)
    requires WellFormed(g) && v.node < |g|
    ensures r.None? ==> am.base != NoBase && am.index.Some?
    ensures r.Some? && am.base != NoBase ==> r.value.base == am.base
    ensures r.Some? && am.index.Some? ==> r.value.index == am.index && r.value.scale == am.scale
    ensures r.Some? && am.gv.Some? ==> r.value.gv == am.gv
    ensures r.Some? && am.cp.Some? ==> r.value.cp == am.cp
    ensures r.Some? && p == Corrected && OneSymbol(am) ==> OneSymbol(r.value)
    decreases |g| - v.node, 1
  {
    match g[v.node].op
    case Constant(c) => Some(am.(disp := am.disp + c))
    case Wrapper(_) => MatchWrapper(p, g, sel, v, am)
    case FrameIndex(fi) =>
      if am.base == NoBase then Some(am.(base := FrameBase(fi))) else Default(am, v)
    case Shl => MatchShl(g, sel, v, am)
    case Mul => MatchMul(g, sel, v, am)
    case Add => if v.node !in sel then MatchAdd(p, g, sel, v, am) else Default(am, v)
    case Or => if v.node !in sel then MatchOr(p, g, sel, v, am) else Default(am, v)
    case _ => Default(am, v)
  }

  /** Both operands in order, then in the other order, each attempt from
      the mode as it was; if neither works, the default rule. */
  function MatchAdd(p: Policy, g: Graph, sel: set<nat>, v: Val, am: AddressMode): (r: Option<AddressMode>)
    requires WellFormed(g) && v.node < |g| && g[v.node].op == Add
    ensures r.None? ==> am.base != NoBase && am.index.Some?
    ensures r.Some? && am.base != NoBase ==> r.value.base == am.base
    ensures r.Some? && am.index.Some? ==> r.value.index == am.index && r.value.scale == am.scale
    ensures r.Some? && am.gv.Some? ==> r.value.gv == am.gv
    ensures r.Some? && am.cp.Some? ==> r.value.cp == am.cp
    ensures r.Some? && p == Corrected && OneSymbol(am) ==> OneSymbol(r.value)
    decreases |g| - v.node, 0
  {
    var ops := g[v.node].operands;
    var first := Match(p, g, sel, ops[0], am);
    var both := if first.Some? then Match(p, g, sel, ops[1], first.value) else None;
    if both.Some? then both
    else
      var first' := Match(p, g, sel, ops[1], am);
      var both' := if first'.Some? then Match(p, g, sel, ops[0], first'.value) else None;
      if both'.Some? then both' else Default(am, v)
  }

  /** (x << c1) | c2 with c2 < c1 treated as an ADD: the constant on
      either side, the other operand matched first. */
  function MatchOr(p: Policy, g: Graph, sel: set<nat>, v: Val, am: AddressMode): (r: Option<AddressMode>)
    requires WellFormed(g) && v.node < |g| && g[v.node].op == Or
    ensures r.None? ==> am.base != NoBase && am.index.Some?
    ensures r.Some? && am.base != NoBase ==> r.value.base == am.base
    ensures r.Some? && am.index.Some? ==> r.value.index == am.index && r.value.scale == am.scale
    ensures r.Some? && am.gv.Some? ==> r.value.gv == am.gv
    ensures r.Some? && am.cp.Some? ==> r.value.cp == am.cp
    ensures r.Some? && p == Corrected && OneSymbol(am) ==> OneSymbol(r.value)
    decreases |g| - v.node, 0
  {
    var ops := g[v.node].operands;
    var c0 := ConstantOf(g, ops[0]);
    var m1 := if c0.Some? then Match(p, g, sel, ops[1], am) else None;
    if m1.Some? && OrFoldAllowed(p, g, c0.value, ops[1], m1.value) then Some(m1.value.(disp := c0.value))
    else
      var c1 := ConstantOf(g, ops[1]);
      var m0 := if c1.Some? then Match(p, g, sel, ops[0], am) else None;
      if m0.Some? && OrFoldAllowed(p, g, c1.value, ops[0], m0.value) then Some(m0.value.(disp := c1.value))
      else Default(am, v)
  }
}

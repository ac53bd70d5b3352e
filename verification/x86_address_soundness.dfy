/** What the addressing-mode matcher promises about values: the address a
    matched mode denotes is the mode it started from plus the value of the
    matched node. */
module X86AddressSoundness {
  import opened Wrappers
  import opened Powers
  import opened X86Dag
  import opened X86Address

  function BaseValue(g: Graph, env: Env, b: Base): nat {
    match b
    case NoBase => 0
    case RegBase(r) => Value(g, env, r)
    case FrameBase(fi) => env.frame(fi)
  }

  function IndexValue(g: Graph, env: Env, i: Option<Val>): nat {
    if i.Some? then Value(g, env, i.value) else 0
  }

  function SymbolValue(env: Env, am: AddressMode): nat {
    (if am.gv.Some? then env.global(am.gv.value) else 0)
    + (if am.cp.Some? then env.pool(am.cp.value) else 0)
  }

  /** The address a mode denotes: base + scale * index + disp + the
      addresses of its symbols. */
  function AddrValue(g: Graph, env: Env, am: AddressMode): nat {
    BaseValue(g, env, am.base) + am.scale.Times(IndexValue(g, env, am.index)) + am.disp
      + SymbolValue(env, am)
  }

  /** The result of `v` the matcher may look into: result 0, or any result
      of a node with several. */
  predicate Typed(g: Graph, v: Val)
    requires v.node < |g|
  {
    v.res == 0 || !SingleResult(g[v.node].op)
  }

  /** Taking `v` as base or index register adds its value. */
  lemma DefaultSound(g: Graph, env: Env, v: Val, am: AddressMode)
    ensures var r := Default(am, v);
      r.Some? ==> AddrValue(g, env, r.value) == AddrValue(g, env, am) + Value(g, env, v)
  {
  }

  lemma WrapperSound(g: Graph, sel: set<nat>, env: Env, v: Val, am: AddressMode)
    requires v.node < |g| && g[v.node].op.Wrapper? && v.res == 0
    ensures var r := MatchWrapper(Corrected, g, sel, v, am);
      r.Some? ==> AddrValue(g, env, r.value) == AddrValue(g, env, am) + Value(g, env, v)
  {
    DefaultSound(g, env, v, am);
  }

  /** The scale the shift rule picks stands for 2^k. */
  lemma ShiftScaleIsPower(k: nat, x: nat)
    requires k == 1 || k == 2 || k == 3
    ensures ShiftScale(k).Times(x) == x * Pow2(k)
  {
    assert Pow2(1) == 2 && Pow2(2) == 4 && Pow2(3) == 8;
  }

  /** A shift left by a constant 1, 2 or 3 is a multiplication by the
      scale the matcher picks for it. */
  lemma ShlValue(g: Graph, env: Env, v: Val, k: nat)
    requires WellFormed(g) && v.node < |g| && g[v.node].op == Shl && v.res == 0
    requires ConstantOf(g, g[v.node].operands[1]) == Some(k) && (k == 1 || k == 2 || k == 3)
    ensures Value(g, env, v) == ShiftScale(k).Times(Value(g, env, g[v.node].operands[0]))
  {
    assert Value(g, env, v) == ShiftLeft(Value(g, env, g[v.node].operands[0]), k);
    ShiftLeftIsMul(Value(g, env, g[v.node].operands[0]), k);
    ShiftScaleIsPower(k, Value(g, env, g[v.node].operands[0]));
  }

  /** A multiplication by a constant 3, 5 or 9 is the operand plus the
      operand times the scale the matcher picks for it. */
  lemma MulValue(g: Graph, env: Env, v: Val, k: nat)
    requires WellFormed(g) && v.node < |g| && g[v.node].op == Mul && v.res == 0
    requires ConstantOf(g, g[v.node].operands[1]) == Some(k) && (k == 3 || k == 5 || k == 9)
    ensures var x := Value(g, env, g[v.node].operands[0]);
      Value(g, env, v) == x + MulScale(k).Times(x)
  {
    assert Value(g, env, v) == Product(Value(g, env, g[v.node].operands[0]), k);
    ProductIsMul(Value(g, env, g[v.node].operands[0]), k);
  }

  /** An add of a constant is its left operand plus the constant. */
  lemma AddOfConstant(g: Graph, env: Env, v: Val, c: nat)
    requires WellFormed(g) && v.node < |g| && g[v.node].op == Add && v.res == 0
    requires ConstantOf(g, g[v.node].operands[1]) == Some(c)
    ensures Value(g, env, v) == Value(g, env, g[v.node].operands[0]) + c
  {
  }

  lemma TimesDistributes(s: Scale, x: nat, y: nat)
    ensures s.Times(x + y) == s.Times(x) + s.Times(y)
  {
  }

  /** Filling an empty index slot adds the scaled index and whatever the
      displacement grows by. */
  lemma SetIndexSound(g: Graph, env: Env, am: AddressMode, scale: Scale, idx: Val, extra: nat)
    requires am.index.None?
    ensures AddrValue(g, env, am.(scale := scale, index := Some(idx), disp := am.disp + extra))
      == AddrValue(g, env, am) + scale.Times(Value(g, env, idx)) + extra
  {
  }

  /** Filling both register slots of a mode that has neither with the same
      value adds it once plain and once scaled. */
  lemma SetBaseIndexSound(g: Graph, env: Env, am: AddressMode, scale: Scale, reg: Val, extra: nat)
    requires am.base == NoBase && am.index.None?
    ensures AddrValue(g, env, am.(scale := scale, base := RegBase(reg), index := Some(reg), disp := am.disp + extra))
      == AddrValue(g, env, am) + Value(g, env, reg) + scale.Times(Value(g, env, reg)) + extra
  {
    assert am.scale.Times(0) == 0;
  }

  /** The shift rule when the shifted value is a single-use add of a
      constant: the constant moves into the displacement, scaled. */
  lemma ShlFoldSound(g: Graph, env: Env, v: Val, am: AddressMode, k: nat, c: nat)
    requires WellFormed(g) && v.node < |g| && g[v.node].op == Shl && v.res == 0
    requires ConstantOf(g, g[v.node].operands[1]) == Some(k) && (k == 1 || k == 2 || k == 3)
    requires var shVal := g[v.node].operands[0];
      g[shVal.node].op == Add && ConstantOf(g, g[shVal.node].operands[1]) == Some(c)
    requires am.index.None?
    ensures var a := g[g[v.node].operands[0].node].operands[0];
      AddrValue(g, env, am.(scale := ShiftScale(k), index := Some(a), disp := am.disp + ShiftScale(k).Times(c)))
      == AddrValue(g, env, am) + Value(g, env, v)
  {
    var shVal := g[v.node].operands[0];
    var a := g[shVal.node].operands[0];
    ShlValue(g, env, v, k);
    AddOfConstant(g, env, shVal, c);
    TimesDistributes(ShiftScale(k), Value(g, env, a), c);
    SetIndexSound(g, env, am, ShiftScale(k), a, ShiftScale(k).Times(c));
  }

  lemma ShlSound(g: Graph, sel: set<nat>, env: Env, v: Val, am: AddressMode)
    requires WellFormed(g) && v.node < |g| && g[v.node].op == Shl && v.res == 0
    ensures var r := MatchShl(g, sel, v, am);
      r.Some? ==> AddrValue(g, env, r.value) == AddrValue(g, env, am) + Value(g, env, v)
  {
    var ops := g[v.node].operands;
    var amount := ConstantOf(g, ops[1]);
    if v.node !in sel && am.index.None? && am.scale == S1 && amount.Some?
       && (amount.value == 1 || amount.value == 2 || amount.value == 3)
    {
      var shVal := ops[0];
      var scale := ShiftScale(amount.value);
      if g[shVal.node].op == Add && HasOneUse(g, shVal) && ConstantOf(g, g[shVal.node].operands[1]).Some? {
        ShlFoldSound(g, env, v, am, amount.value, ConstantOf(g, g[shVal.node].operands[1]).value);
      } else {
        ShlValue(g, env, v, amount.value);
        assert MatchShl(g, sel, v, am) == Some(am.(scale := scale, index := Some(shVal), disp := am.disp + 0));
        SetIndexSound(g, env, am, scale, shVal, 0);
      }
    } else {
      DefaultSound(g, env, v, am);
    }
  }

  /** The multiply rule when the multiplied value is a single-use add of a
      constant: the constant times the factor moves into the
      displacement. */
  lemma MulFoldSound(g: Graph, env: Env, v: Val, am: AddressMode, k: nat, c: nat)
    requires WellFormed(g) && v.node < |g| && g[v.node].op == Mul && v.res == 0
    requires ConstantOf(g, g[v.node].operands[1]) == Some(k) && (k == 3 || k == 5 || k == 9)
    requires var mulVal := g[v.node].operands[0];
      g[mulVal.node].op == Add && ConstantOf(g, g[mulVal.node].operands[1]) == Some(c)
    requires am.base == NoBase && am.index.None?
    ensures var reg := g[g[v.node].operands[0].node].operands[0];
      var scale := MulScale(k);
      AddrValue(g, env, am.(scale := scale, base := RegBase(reg), index := Some(reg), disp := am.disp + (c + scale.Times(c))))
      == AddrValue(g, env, am) + Value(g, env, v)
  {
    var mulVal := g[v.node].operands[0];
    var reg := g[mulVal.node].operands[0];
    MulValue(g, env, v, k);
    AddOfConstant(g, env, mulVal, c);
    TimesDistributes(MulScale(k), Value(g, env, reg), c);
    SetBaseIndexSound(g, env, am, MulScale(k), reg, c + MulScale(k).Times(c));
  }

  lemma MulSound(g: Graph, sel: set<nat>, env: Env, v: Val, am: AddressMode)
    requires WellFormed(g) && v.node < |g| && g[v.node].op == Mul && v.res == 0
    ensures var r := MatchMul(g, sel, v, am);
      r.Some? ==> AddrValue(g, env, r.value) == AddrValue(g, env, am) + Value(g, env, v)
  {
    var ops := g[v.node].operands;
    var factor := ConstantOf(g, ops[1]);
    if v.node !in sel && am.base == NoBase && am.index.None? && factor.Some?
       && (factor.value == 3 || factor.value == 5 || factor.value == 9)
    {
      var scale := MulScale(factor.value);
      var mulVal := ops[0];
      if g[mulVal.node].op == Add && HasOneUse(g, mulVal) && ConstantOf(g, g[mulVal.node].operands[1]).Some? {
        MulFoldSound(g, env, v, am, factor.value, ConstantOf(g, g[mulVal.node].operands[1]).value);
      } else {
        MulValue(g, env, v, factor.value);
        assert MatchMul(g, sel, v, am)
          == Some(am.(scale := scale, base := RegBase(mulVal), index := Some(mulVal), disp := am.disp + 0));
        SetBaseIndexSound(g, env, am, scale, mulVal, 0);
      }
    } else {
      DefaultSound(g, env, v, am);
    }
  }

  /** Under the corrected rule, or-ing the constant into the other operand
      adds it: the operand is a multiple of a power of two above it. */
  lemma KnownMultipleSound(g: Graph, env: Env, other: Val, c: nat)
    requires WellFormed(g) && other.node < |g|
    requires c < KnownMultiple(g, other)
    ensures BitOr(c, Value(g, env, other)) == Value(g, env, other) + c
    ensures BitOr(Value(g, env, other), c) == Value(g, env, other) + c
  {
    BitOrCommutes(c, Value(g, env, other));
    if KnownMultiple(g, other) == 1 {
      assert c == 0;
    } else {
      var ops := g[other.node].operands;
      var k := ConstantOf(g, ops[1]).value;
      assert Value(g, env, other) == ShiftLeft(Value(g, env, ops[0]), k);
      ShiftLeftIsMul(Value(g, env, ops[0]), k);
      OrIntoLowBits(Value(g, env, ops[0]), k, c);
    }
  }

  /** MatchAddress with the corrected OR and Wrapper rules is exact. */
  lemma {:induction false} MatchSound(g: Graph, sel: set<nat>, env: Env, v: Val, am: AddressMode)
    requires WellFormed(g) && v.node < |g| && Typed(g, v)
    ensures var r := Match(Corrected, g, sel, v, am);
      r.Some? ==> AddrValue(g, env, r.value) == AddrValue(g, env, am) + Value(g, env, v)
    decreases |g| - v.node, 1
  {
    match g[v.node].op
    case Constant(c) =>
    case Wrapper(_) => WrapperSound(g, sel, env, v, am);
    case FrameIndex(fi) => DefaultSound(g, env, v, am);
    case Shl => ShlSound(g, sel, env, v, am);
    case Mul => MulSound(g, sel, env, v, am);
    case Add =>
      if v.node !in sel {
        AddSound(g, sel, env, v, am);
      } else {
        DefaultSound(g, env, v, am);
      }
    case Or =>
      if v.node !in sel {
        OrSound(g, sel, env, v, am);
      } else {
        DefaultSound(g, env, v, am);
      }
    case _ => DefaultSound(g, env, v, am);
  }

  lemma {:induction false} AddSound(g: Graph, sel: set<nat>, env: Env, v: Val, am: AddressMode)
    requires WellFormed(g) && v.node < |g| && g[v.node].op == Add && v.res == 0
    ensures var r := MatchAdd(Corrected, g, sel, v, am);
      r.Some? ==> AddrValue(g, env, r.value) == AddrValue(g, env, am) + Value(g, env, v)
    decreases |g| - v.node, 0
  {
    var ops := g[v.node].operands;
    assert Value(g, env, v) == Value(g, env, ops[0]) + Value(g, env, ops[1]);
    var first := Match(Corrected, g, sel, ops[0], am);
    MatchSound(g, sel, env, ops[0], am);
    if first.Some? {
      MatchSound(g, sel, env, ops[1], first.value);
    }
    var first' := Match(Corrected, g, sel, ops[1], am);
    MatchSound(g, sel, env, ops[1], am);
    if first'.Some? {
      MatchSound(g, sel, env, ops[0], first'.value);
    }
    DefaultSound(g, env, v, am);
  }

  /** The OR rule's last step: the other operand matched exactly and the
      constant goes into the (zero) displacement. */
  lemma OrFoldSound(g: Graph, env: Env, am: AddressMode, m: AddressMode, other: Val, c: nat, orValue: nat)
    requires WellFormed(g) && other.node < |g|
    requires AddrValue(g, env, m) == AddrValue(g, env, am) + Value(g, env, other)
    requires OrFoldAllowed(Corrected, g, c, other, m)
    requires orValue == BitOr(c, Value(g, env, other)) || orValue == BitOr(Value(g, env, other), c)
    ensures AddrValue(g, env, m.(disp := c)) == AddrValue(g, env, am) + orValue
  {
    KnownMultipleSound(g, env, other, c);
  }

  lemma {:induction false} OrSound(g: Graph, sel: set<nat>, env: Env, v: Val, am: AddressMode)
    requires WellFormed(g) && v.node < |g| && g[v.node].op == Or && v.res == 0
    ensures var r := MatchOr(Corrected, g, sel, v, am);
      r.Some? ==> AddrValue(g, env, r.value) == AddrValue(g, env, am) + Value(g, env, v)
    decreases |g| - v.node, 0
  {
    var ops := g[v.node].operands;
    var orValue := Value(g, env, v);
    assert orValue == BitOr(Value(g, env, ops[0]), Value(g, env, ops[1]));
    var c0 := ConstantOf(g, ops[0]);
    if c0.Some? {
      var m1 := Match(Corrected, g, sel, ops[1], am);
      MatchSound(g, sel, env, ops[1], am);
      if m1.Some? && OrFoldAllowed(Corrected, g, c0.value, ops[1], m1.value) {
        OrFoldSound(g, env, am, m1.value, ops[1], c0.value, orValue);
      }
    }
    var c1 := ConstantOf(g, ops[1]);
    if c1.Some? {
      var m0 := Match(Corrected, g, sel, ops[0], am);
      MatchSound(g, sel, env, ops[0], am);
      if m0.Some? && OrFoldAllowed(Corrected, g, c1.value, ops[0], m0.value) {
        OrFoldSound(g, env, am, m0.value, ops[0], c1.value, orValue);
      }
    }
    DefaultSound(g, env, v, am);
  }
}

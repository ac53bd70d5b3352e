/** The MIPS combine that rewrites a multiplication by a constant into
    shifts, additions and subtractions (genConstMult).

    The decomposition is returned as a small expression tree over the one
    multiplicand X; `Eval` gives it the wrap-around meaning of a `w`-bit
    integer register. */
module MipsConstMult {

  import opened Powers

  // ---------------------------------------------------------------------
  // The two logarithms the decomposition uses
  // ---------------------------------------------------------------------

  /** Log2_64: the largest k with 2^k <= c. */
  function Log2(c: nat): (k: nat)
    requires c >= 1
    ensures Pow2(k) <= c < 2 * Pow2(k)
  {
    if c == 1 then 0 else Log2(c / 2) + 1
  }

  predicate IsPow2(c: nat) {
    c >= 1 && Pow2(Log2(c)) == c
  }

  /** The size of the unsigned 64-bit integers the source computes in. */
  const TwoTo64: nat := 0x1_0000_0000_0000_0000

  lemma Pow2Of64()
    ensures Pow2(64) == TwoTo64
  {
    assert Pow2(1) == 2;
    assert Pow2(2) == 4;
    assert Pow2(3) == 8;
    assert Pow2(4) == 16;
    Pow2Add(4, 4);
    assert Pow2(8) == 256;
    Pow2Add(8, 8);
    assert Pow2(16) == 0x1_0000;
    Pow2Add(16, 16);
    assert Pow2(32) == 0x1_0000_0000;
    Pow2Add(32, 32);
  }

  /** The powers of two that lane and register widths need. */
  lemma Pow2Widths()
    ensures Pow2(7) == 0x80 && Pow2(8) == 0x100
    ensures Pow2(15) == 0x8000 && Pow2(16) == 0x1_0000
    ensures Pow2(31) == 0x8000_0000 && Pow2(32) == 0x1_0000_0000
  {
    assert Pow2(4) == 16;
    assert Pow2(8) == 256;
    assert Pow2(7) == 128;
    Pow2Add(8, 8);
    Pow2Add(7, 8);
    Pow2Add(16, 16);
    Pow2Add(15, 16);
  }

  /** The logarithm of a power of two is its exponent. */
  lemma {:induction false} Log2OfPow2(k: nat)
    ensures Log2(Pow2(k)) == k
  {
    var l := Log2(Pow2(k));
    if l < k {
      Pow2Monotone(l + 1, k);
    } else if l > k {
      Pow2Monotone(k + 1, l);
    }
  }

  /** A value below 2^w has its logarithm below w. */
  lemma Log2Below(c: nat, w: nat)
    requires 1 <= c < Pow2(w)
    ensures Log2(c) < w
  {
    if Log2(c) >= w {
      Pow2Monotone(w, Log2(c));
    }
  }

  // ---------------------------------------------------------------------
  // Modular arithmetic helpers
  // ---------------------------------------------------------------------

  /** Adding a multiple of the modulus does not change the remainder. */
  lemma ModShift(a: int, k: int, m: int)
    requires m > 0
    ensures (a + k * m) % m == a % m
  {
    var q := a / m;
    assert a == q * m + a % m;
    assert a + k * m == (q + k) * m + a % m;
    ModUnique(a + k * m, m, q + k, a % m);
  }

  lemma ModOfSum(a: int, b: int, m: int)
    requires m > 0
    ensures (a % m + b % m) % m == (a + b) % m
  {
    var k := a / m + b / m;
    assert a == (a / m) * m + a % m;
    assert b == (b / m) * m + b % m;
    assert k * m == (a / m) * m + (b / m) * m;
    assert a % m + b % m == (a + b) + (-k) * m;
    ModShift(a + b, -k, m);
  }

  lemma ModOfDifference(a: int, b: int, m: int)
    requires m > 0
    ensures (a % m - b % m) % m == (a - b) % m
  {
    var k := a / m - b / m;
    assert a == (a / m) * m + a % m;
    assert b == (b / m) * m + b % m;
    assert k * m == (a / m) * m - (b / m) * m;
    assert a % m - b % m == (a - b) + (-k) * m;
    ModShift(a - b, -k, m);
  }

  // ---------------------------------------------------------------------
  // The decomposition
  // ---------------------------------------------------------------------

  /** The DAG nodes genConstMult builds: the constant 0, the multiplicand
      itself, a shift of it, and the sum or difference of two subtrees. */
  datatype CExpr =
    | Zero
    | X
    | Shl(amount: nat)
    | Add(lhs: CExpr, rhs: CExpr)
    | Sub(lhs: CExpr, rhs: CExpr)

  /** The value of a decomposition in a `w`-bit register holding `x`. */
  function Eval(e: CExpr, x: int, w: nat): (v: int)
    ensures 0 <= v < Pow2(w)
  {
    match e
    case Zero => 0
    case X => x % Pow2(w)
    case Shl(k) => (x * Pow2(k)) % Pow2(w)
    case Add(a, b) => (Eval(a, x, w) + Eval(b, x, w)) % Pow2(w)
    case Sub(a, b) => (Eval(a, x, w) - Eval(b, x, w)) % Pow2(w)
  }

  /** How far a constant is from a leaf of the decomposition: constants
      0, 1 and powers of two are leaves, every other constant is its own
      measure.  Each recursive call is on a constant with a smaller measure. */
  function Complexity(c: nat): nat {
    if c <= 1 || IsPow2(c) then 0 else c
  }

  /** The distance from the constant up to the next power of two, computed
      in unsigned 64-bit arithmetic; `ceil` is 0 when that power is 2^64. */
  function UpDistance(ceil: nat, c: nat): nat {
    (ceil - c) % TwoTo64
  }

  /** The power of two at or below `c`. */
  function FloorPow(c: nat): nat
    requires c >= 1
  {
    Pow2(Log2(c))
  }

  /** The next power of two above a `c` that is not one, as the unsigned
      64-bit value the source computes: 0 when that power is 2^64. */
  function CeilPow(c: nat): nat
    requires c >= 1
  {
    if Log2(c) + 1 == 64 then 0 else Pow2(Log2(c) + 1)
  }

  /** The power of two below a constant that is not one is a leaf, and it
      and the remainder above it are already cut to `w` bits. */
  lemma FloorFacts(cm: nat, w: nat)
    requires 1 <= w <= 64 && 2 <= cm < Pow2(w) && !IsPow2(cm)
    ensures Complexity(cm) == cm
    ensures 1 <= FloorPow(cm) < cm
    ensures FloorPow(cm) % Pow2(w) == FloorPow(cm) && Complexity(FloorPow(cm)) == 0
    ensures (cm - FloorPow(cm)) % Pow2(w) == cm - FloorPow(cm)
  {
    Log2OfPow2(Log2(cm));
    ModUnique(FloorPow(cm), Pow2(w), 0, FloorPow(cm));
    ModUnique(cm - FloorPow(cm), Pow2(w), 0, cm - FloorPow(cm));
  }

  /** The power of two above a constant that is not one is at most 2^w. */
  lemma CeilBound(cm: nat, w: nat)
    requires 1 <= w <= 64 && 2 <= cm < Pow2(w) && !IsPow2(cm)
    ensures Log2(cm) + 1 <= w
    ensures cm < Pow2(Log2(cm) + 1) <= Pow2(w) <= TwoTo64
  {
    Log2Below(cm, w);
    Pow2Monotone(Log2(cm) + 1, w);
    Pow2Monotone(w, 64);
    Pow2Of64();
  }

  /** The 64-bit distance up to the next power of two is the exact one. */
  lemma UpFacts(cm: nat, w: nat)
    requires 1 <= w <= 64 && 2 <= cm < Pow2(w) && !IsPow2(cm)
    ensures UpDistance(CeilPow(cm), cm) == Pow2(Log2(cm) + 1) - cm
  {
    var big := Pow2(Log2(cm) + 1);
    CeilBound(cm, w);
    if Log2(cm) + 1 == 64 {
      Pow2Of64();
      ModShift(0 - cm, 1, TwoTo64);
      assert UpDistance(CeilPow(cm), cm) == (0 - cm + 1 * TwoTo64) % TwoTo64;
    } else {
      assert UpDistance(CeilPow(cm), cm) == (big - cm) % TwoTo64;
    }
    ModUnique(big - cm, TwoTo64, 0, big - cm);
  }

  /** The power of two above, cut to `w` bits, is a leaf: it is either the
      exact power or 0 when that power is 2^w. */
  lemma CeilFacts(cm: nat, w: nat)
    requires 1 <= w <= 64 && 2 <= cm < Pow2(w) && !IsPow2(cm)
    ensures var big := Pow2(Log2(cm) + 1);
      var cut := CeilPow(cm) % Pow2(w);
      && (cut == big || (cut == 0 && big == Pow2(w)))
      && Complexity(cut) == 0
  {
    var lc := Log2(cm) + 1;
    var big := Pow2(lc);
    CeilBound(cm, w);
    Log2OfPow2(lc);
    var cut := CeilPow(cm) % Pow2(w);
    if lc == 64 {
      assert CeilPow(cm) == 0;
      ModUnique(0, Pow2(w), 0, 0);
      assert lc == w;
      assert big == Pow2(w);
      assert cut == 0 && Complexity(cut) == 0;
    } else if big == Pow2(w) {
      ModUnique(big, Pow2(w), 1, 0);
      assert cut == 0 && Complexity(cut) == 0;
    } else {
      ModUnique(big, Pow2(w), 0, big);
      assert cut == big;
      assert IsPow2(big);
      assert Complexity(cut) == 0;
    }
  }

  /** A distance below the constant is already cut to `w` bits. */
  lemma SmallIsCut(d: nat, cm: nat, w: nat)
    requires cm < Pow2(w)
    requires d < cm
    ensures d % Pow2(w) == d
  {
    ModUnique(d, Pow2(w), 0, d);
  }

  /** The arithmetic of the subtraction step: with `up` = big - cm and the
      cut power `cut` equal to big or to big - m, x*cut - x*up is x*cm
      modulo m. */
  lemma SubStep(x: int, cm: int, cut: int, big: int, m: int)
    requires m > 0
    requires cut == big || cut == big - m
    ensures ((x * cut) % m - (x * (big - cm)) % m) % m == (x * cm) % m
  {
    ModOfDifference(x * cut, x * (big - cm), m);
    var d := x * cut - x * (big - cm);
    if cut == big {
      assert x * (big - cm) == x * big - x * cm;
      assert d == x * cm;
    } else {
      assert x * cut == x * big - x * m;
      assert x * (big - cm) == x * big - x * cm;
      assert d == x * cm + (-x) * m;
      ModShift(x * cm, -x, m);
    }
  }

  /** genConstMult(X, C) for a `w`-bit type: the constant is first cut to
      its low `w` bits. */
  function GenConstMult(c: nat, w: nat): (e: CExpr)
    requires 1 <= w <= 64
    decreases Complexity(c % Pow2(w))
  {
    var cm := c % Pow2(w);
    if cm == 0 then Zero
    else if cm == 1 then X
    else if IsPow2(cm) then Shl(Log2(cm))
    else
      var floor := FloorPow(cm);
      var ceil := CeilPow(cm);
      var up := UpDistance(ceil, cm);
      FloorFacts(cm, w);
      CeilFacts(cm, w);
      if cm - floor <= up then
        Add(GenConstMult(floor, w), GenConstMult(cm - floor, w))
      else
        SmallIsCut(up, cm, w);
        Sub(GenConstMult(ceil, w), GenConstMult(up, w))
  }

  /** The arithmetic of the addition step. */
  lemma AddStep(x: int, floor: int, rest: int, m: int)
    requires m > 0
    ensures ((x * floor) % m + (x * rest) % m) % m == (x * (floor + rest)) % m
  {
    ModOfSum(x * floor, x * rest, m);
    assert x * floor + x * rest == x * (floor + rest);
  }

  /** The multiplication identity X * C = genConstMult(X, C), in w-bit
      wrap-around arithmetic, for every multiplicand and constant. */
  lemma {:induction false} GenConstMultCorrect(c: nat, w: nat, x: int)
    requires 1 <= w <= 64
    ensures Eval(GenConstMult(c, w), x, w) == (x * (c % Pow2(w))) % Pow2(w)
    decreases Complexity(c % Pow2(w)), 1
  {
    var m := Pow2(w);
    var cm := c % m;
    if cm == 0 {
      assert GenConstMult(c, w) == Zero;
      assert x * cm == 0;
      ModUnique(0, m, 0, 0);
    } else if cm == 1 {
      assert GenConstMult(c, w) == X;
    } else if IsPow2(cm) {
      assert GenConstMult(c, w) == Shl(Log2(cm));
    } else {
      FloorFacts(cm, w);
      if cm - FloorPow(cm) <= UpDistance(CeilPow(cm), cm) {
        AddCaseCorrect(c, w, x);
      } else {
        SubCaseCorrect(c, w, x);
      }
    }
  }

  /** The identity when the constant is split as floor + (C - floor). */
  lemma {:induction false} AddCaseCorrect(c: nat, w: nat, x: int)
    requires 1 <= w <= 64
    requires var cm := c % Pow2(w);
      cm >= 2 && !IsPow2(cm) && cm - FloorPow(cm) <= UpDistance(CeilPow(cm), cm)
    ensures Eval(GenConstMult(c, w), x, w) == (x * (c % Pow2(w))) % Pow2(w)
    decreases Complexity(c % Pow2(w)), 0
  {
    var m := Pow2(w);
    var cm := c % m;
    var floor := FloorPow(cm);
    FloorFacts(cm, w);
    var lhs := GenConstMult(floor, w);
    var rhs := GenConstMult(cm - floor, w);
    AddShape(c, w);
    GenConstMultCorrect(floor, w, x);
    GenConstMultCorrect(cm - floor, w, x);
    EvalAdd(lhs, rhs, x, w, floor, cm - floor, cm);
  }

  /** The decomposition of a constant split as floor + (C - floor). */
  lemma AddShape(c: nat, w: nat)
    requires 1 <= w <= 64
    requires var cm := c % Pow2(w);
      cm >= 2 && !IsPow2(cm) && cm - FloorPow(cm) <= UpDistance(CeilPow(cm), cm)
    ensures var cm := c % Pow2(w);
      GenConstMult(c, w) == Add(GenConstMult(FloorPow(cm), w), GenConstMult(cm - FloorPow(cm), w))
  {
    FloorFacts(c % Pow2(w), w);
    CeilFacts(c % Pow2(w), w);
  }

  lemma EvalAdd(lhs: CExpr, rhs: CExpr, x: int, w: nat, p: int, q: int, r: int)
    requires p + q == r
    requires Eval(lhs, x, w) == (x * p) % Pow2(w) && Eval(rhs, x, w) == (x * q) % Pow2(w)
    ensures Eval(Add(lhs, rhs), x, w) == (x * r) % Pow2(w)
  {
    AddStep(x, p, q, Pow2(w));
  }

  /** The identity when the constant is split as ceil - (ceil - C). */
  lemma {:induction false} SubCaseCorrect(c: nat, w: nat, x: int)
    requires 1 <= w <= 64
    requires var cm := c % Pow2(w);
      cm >= 2 && !IsPow2(cm) && cm - FloorPow(cm) > UpDistance(CeilPow(cm), cm)
    ensures Eval(GenConstMult(c, w), x, w) == (x * (c % Pow2(w))) % Pow2(w)
    decreases Complexity(c % Pow2(w)), 0
  {
    var m := Pow2(w);
    var cm := c % m;
    var ceil := CeilPow(cm);
    var up := UpDistance(ceil, cm);
    FloorFacts(cm, w);
    CeilFacts(cm, w);
    UpFacts(cm, w);
    SmallIsCut(up, cm, w);
    var lhs := GenConstMult(ceil, w);
    var rhs := GenConstMult(up, w);
    SubShape(c, w);
    GenConstMultCorrect(ceil, w, x);
    GenConstMultCorrect(up, w, x);
    EvalSub(lhs, rhs, x, w, ceil % m, Pow2(Log2(cm) + 1), up, cm);
  }

  /** The decomposition of a constant split as ceil - (ceil - C). */
  lemma SubShape(c: nat, w: nat)
    requires 1 <= w <= 64
    requires var cm := c % Pow2(w);
      cm >= 2 && !IsPow2(cm) && cm - FloorPow(cm) > UpDistance(CeilPow(cm), cm)
    ensures var cm := c % Pow2(w);
      GenConstMult(c, w) == Sub(GenConstMult(CeilPow(cm), w), GenConstMult(UpDistance(CeilPow(cm), cm), w))
  {
    var cm := c % Pow2(w);
    FloorFacts(cm, w);
    CeilFacts(cm, w);
    SmallIsCut(UpDistance(CeilPow(cm), cm), cm, w);
  }

  lemma EvalSub(lhs: CExpr, rhs: CExpr, x: int, w: nat, cut: int, big: int, up: int, cm: int)
    requires (cut == big || cut == big - Pow2(w)) && up == big - cm
    requires Eval(lhs, x, w) == (x * cut) % Pow2(w) && Eval(rhs, x, w) == (x * up) % Pow2(w)
    ensures Eval(Sub(lhs, rhs), x, w) == (x * cm) % Pow2(w)
  {
    SubStep(x, cm, cut, big, Pow2(w));
  }

  /** The three leaf cases of the decomposition: 0 gives the constant 0,
      1 gives X itself, and 2^k gives a single shift by k; a constant of
      any other kind gives a sum or a difference. */
  lemma GenConstMultLeaves(c: nat, w: nat)
    requires 1 <= w <= 64
    ensures var cm := c % Pow2(w);
      && (GenConstMult(c, w).Zero? <==> cm == 0)
      && (GenConstMult(c, w).X? <==> cm == 1)
      && (GenConstMult(c, w).Shl? <==> cm >= 2 && IsPow2(cm))
      && (GenConstMult(c, w).Shl? ==> Pow2(GenConstMult(c, w).amount) == cm)
  {
  }

  /** A worked example: 7 = 8 - 1 in an 8-bit register becomes
      (X << 3) - X. */
  lemma SevenIsEightMinusOne()
    ensures GenConstMult(7, 8) == Sub(Shl(3), X)
  {
    assert Pow2(3) == 8;
    assert Pow2(8) == 256 by {
      assert Pow2(4) == 16;
      assert Pow2(6) == 64;
    }
    Log2OfPow2(3);
    assert Log2(7) == 2;
    assert !IsPow2(7);
    assert IsPow2(8);
  }
}

/** DenseMap's probe sequence: from the key's hash, step 1, then 2, then 3
    further, so the s-th probe is `hash + Tri(s)` (the s-th triangular
    number), masked to the bucket count.  With a power-of-two bucket count
    the first `n` probes visit every bucket exactly once, which is what
    makes lookup stop as long as one bucket is empty. */
module DenseMapProbe {
  import opened Powers

  /** 1, 2, 4, 8, ... */
  predicate IsPowerOfTwo(n: nat)
    decreases n
  {
    n == 1 || (n >= 2 && n % 2 == 0 && IsPowerOfTwo(n / 2))
  }

  /** Tri(s) = 1 + 2 + ... + s. */
  function Tri(s: nat): nat {
    if s == 0 then 0 else Tri(s - 1) + s
  }

  /** The bucket of the s-th probe.  The source adds in 32-bit unsigned
      arithmetic and masks with n - 1; for a power of two n that divides
      2^32 this is the residue below. */
  function Probe(h: nat, s: nat, n: nat): (b: nat)
    requires n > 0
    ensures b < n
  {
    (h + Tri(s)) % n
  }

  // ---------------------------------------------------------------------
  // Arithmetic
  // ---------------------------------------------------------------------

  lemma ModOfMultiple(a: nat, d: nat, q: nat, r: nat)
    requires d > 0 && r < d && a == d * q + r
    ensures a % d == r
  {
    ModUnique(a, d, q, r);
  }

  lemma TriClosed(s: nat)
    ensures 2 * Tri(s) == s * (s + 1)
  {
    if s > 0 {
      TriClosed(s - 1);
      assert (s - 1) * s + 2 * s == s * (s + 1);
    }
  }

  /** Twice the distance between two triangular numbers factors. */
  lemma TriDifference(i: nat, j: nat)
    requires i < j
    ensures Tri(i) < Tri(j)
    ensures 2 * (Tri(j) - Tri(i)) == (j - i) * (j + i + 1)
  {
    TriClosed(i);
    TriClosed(j);
    var a, b := j - i, j + i + 1;
    assert a * b == j * (j + 1) - i * (i + 1) by {
      assert a * b == (j - i) * j + (j - i) * (i + 1);
    }
    assert Tri(i) < Tri(j) by {
      assert a * b >= 1;
    }
  }

  /** Scaling both sides by two keeps divisibility. */
  lemma DoubleDivides(a: nat, d: nat)
    requires d > 0
    ensures (2 * a) % (2 * d) == 0 <==> a % d == 0
  {
    var q, r := a / d, a % d;
    assert a == d * q + r;
    ModOfMultiple(2 * a, 2 * d, q, 2 * r);
  }

  lemma OddTimes(x: nat, y: nat)
    requires y % 2 == 1
    ensures (x * y) % 2 == x % 2
  {
    var b := y / 2;
    assert y == 2 * b + 1;
    assert x * y == 2 * (x * b) + x;
    ModOfMultiple(x * y, 2, x * b + x / 2, x % 2);
  }

  /** A power of two divides a product with an odd factor only by dividing
      the other factor. */
  lemma {:induction false} OddFactor(m: nat, x: nat, y: nat)
    requires IsPowerOfTwo(m) && (x * y) % m == 0 && y % 2 == 1
    ensures x % m == 0
    decreases m
  {
    if m >= 2 {
      var half := m / 2;
      assert m == 2 * half;
      assert (x * y) % 2 == 0 by {
        var q := (x * y) / m;
        assert x * y == m * q;
        ModOfMultiple(x * y, 2, half * q, 0);
      }
      OddTimes(x, y);
      var a := x / 2;
      assert x == 2 * a;
      assert x * y == 2 * (a * y);
      DoubleDivides(a * y, half);
      OddFactor(half, a, y);
      DoubleDivides(a, half);
    }
  }

  // ---------------------------------------------------------------------
  // The first n probes are distinct, so they cover every bucket
  // ---------------------------------------------------------------------

  lemma SameResidue(a: nat, b: nat, n: nat)
    requires n > 0 && b <= a && a % n == b % n
    ensures (a - b) % n == 0
  {
    var qa, qb := a / n, b / n;
    assert a == n * qa + a % n && b == n * qb + b % n;
    assert a - b == n * (qa - qb);
    assert qa >= qb;
    ModOfMultiple(a - b, n, qa - qb, 0);
  }

  /** The gap between the i-th and j-th probes is never a multiple of a
      power-of-two n when i < j < n. */
  lemma TriGapNotMultiple(n: nat, i: nat, j: nat)
    requires IsPowerOfTwo(n) && i < j < n
    ensures Tri(i) < Tri(j) && (Tri(j) - Tri(i)) % n != 0
  {
    TriDifference(i, j);
    var d := Tri(j) - Tri(i);
    if d % n == 0 {
      DoubleDivides(d, n);
      ProductNotMultiple(n, j - i, j + i + 1);
    }
  }

  /** (j - i) * (j + i + 1) is not a multiple of 2n: one factor is odd, so
      2n would have to divide the other, which is positive and below 2n. */
  lemma ProductNotMultiple(n: nat, a: nat, b: nat)
    requires IsPowerOfTwo(n) && 0 < a < n && 0 < b < 2 * n && (a + b) % 2 == 1
    ensures (a * b) % (2 * n) != 0
  {
    assert IsPowerOfTwo(2 * n) by {
      assert (2 * n) / 2 == n;
    }
    if (a * b) % (2 * n) == 0 {
      if a % 2 == 1 {
        assert b * a == a * b;
        OddFactor(2 * n, b, a);
        ModOfMultiple(b, 2 * n, 0, b);
      } else {
        OddFactor(2 * n, a, b);
        ModOfMultiple(a, 2 * n, 0, a);
      }
    }
  }

  /** No two of the first n probes land in the same bucket. */
  lemma ProbesDistinct(h: nat, n: nat, i: nat, j: nat)
    requires IsPowerOfTwo(n) && i < j < n
    ensures Probe(h, i, n) != Probe(h, j, n)
  {
    TriGapNotMultiple(n, i, j);
    if Probe(h, i, n) == Probe(h, j, n) {
      assert h + Tri(j) - (h + Tri(i)) == Tri(j) - Tri(i);
      SameResidue(h + Tri(j), h + Tri(i), n);
    }
  }

  function Visited(h: nat, n: nat, m: nat): set<nat>
    requires n > 0
  {
    set s: nat | s < m :: Probe(h, s, n)
  }

  lemma {:induction false} VisitedCount(h: nat, n: nat, m: nat)
    requires IsPowerOfTwo(n) && m <= n
    ensures |Visited(h, n, m)| == m
    decreases m
  {
    if m > 0 {
      VisitedCount(h, n, m - 1);
      assert Visited(h, n, m) == Visited(h, n, m - 1) + {Probe(h, m - 1, n)};
      if Probe(h, m - 1, n) in Visited(h, n, m - 1) {
        var s: nat :| s < m - 1 && Probe(h, s, n) == Probe(h, m - 1, n);
        ProbesDistinct(h, n, s, m - 1);
      }
    }
  }

  /** {0, ..., n - 1}. */
  function Below(n: nat): (r: set<nat>)
    ensures forall i: nat :: i in r <==> i < n
  {
    if n == 0 then {} else Below(n - 1) + {n - 1}
  }

  lemma {:induction false} BelowCount(n: nat)
    ensures |Below(n)| == n
  {
    if n > 0 {
      var prev := Below(n - 1);
      BelowCount(n - 1);
      assert n - 1 !in prev;
      assert |prev + {n - 1}| == |prev| + 1;
    }
  }

  lemma {:induction false} SubsetCount<T>(a: set<T>, b: set<T>)
    requires a <= b
    ensures |a| <= |b|
    decreases |b|
  {
    if b != {} {
      var x :| x in b;
      assert |b - {x}| == |b| - 1;
      if x in a {
        assert |a - {x}| == |a| - 1;
        SubsetCount(a - {x}, b - {x});
      } else {
        SubsetCount(a, b - {x});
      }
    }
  }

  /** Every bucket is reached within the first n probes. */
  lemma ProbesCover(h: nat, n: nat, b: nat)
    requires IsPowerOfTwo(n) && b < n
    ensures exists s: nat :: s < n && Probe(h, s, n) == b
  {
    var v := Visited(h, n, n);
    VisitedCount(h, n, n);
    BelowCount(n);
    if b !in v {
      var rest := Below(n) - {b};
      assert |rest| == n - 1;
      assert v <= rest;
      SubsetCount(v, rest);
    }
  }

  /** The number of probes before the first one that lands in bucket b
      (n if none does). */
  function FirstVisit(h: nat, b: nat, n: nat, s: nat): (d: nat)
    requires n > 0 && s <= n
    ensures s <= d <= n
    decreases n - s
  {
    if s >= n then n
    else if Probe(h, s, n) == b then s
    else FirstVisit(h, b, n, s + 1)
  }

  function Distance(h: nat, b: nat, n: nat): nat
    requires n > 0
  {
    FirstVisit(h, b, n, 0)
  }

  lemma {:induction false} FirstVisitFacts(h: nat, b: nat, n: nat, s: nat)
    requires n > 0 && s <= n
    ensures FirstVisit(h, b, n, s) < n ==> Probe(h, FirstVisit(h, b, n, s), n) == b
    ensures forall t: nat :: s <= t < FirstVisit(h, b, n, s) && t < n ==> Probe(h, t, n) != b
    ensures forall t: nat :: s <= t < n && Probe(h, t, n) == b ==> FirstVisit(h, b, n, s) <= t
    decreases n - s
  {
    if s < n && Probe(h, s, n) != b {
      FirstVisitFacts(h, b, n, s + 1);
    }
  }

  /** Every bucket has a first probe that reaches it, below n, and no
      earlier probe lands there. */
  lemma DistanceFacts(h: nat, b: nat, n: nat)
    requires IsPowerOfTwo(n) && b < n
    ensures Distance(h, b, n) < n && Probe(h, Distance(h, b, n), n) == b
    ensures forall t: nat :: t < Distance(h, b, n) ==> Probe(h, t, n) != b
  {
    ProbesCover(h, n, b);
    FirstVisitFacts(h, b, n, 0);
  }

  /** A probe that lands in b with no earlier one landing there is b's
      first. */
  lemma DistanceIs(h: nat, b: nat, n: nat, s: nat)
    requires IsPowerOfTwo(n) && s < n && Probe(h, s, n) == b
    requires forall t: nat :: t < s ==> Probe(h, t, n) != b
    ensures Distance(h, b, n) == s
  {
    DistanceFacts(h, b, n);
    FirstVisitFacts(h, b, n, 0);
  }

  /** The bucket reached at step s < n is reached there first. */
  lemma DistanceOfStep(h: nat, n: nat, s: nat)
    requires IsPowerOfTwo(n) && s < n
    ensures Distance(h, Probe(h, s, n), n) == s
  {
    forall t: nat | t < s
      ensures Probe(h, t, n) != Probe(h, s, n)
    {
      ProbesDistinct(h, n, t, s);
    }
    DistanceIs(h, Probe(h, s, n), n, s);
  }

  lemma DoubleIsPowerOfTwo(n: nat)
    requires IsPowerOfTwo(n)
    ensures IsPowerOfTwo(2 * n)
  {
    assert (2 * n) / 2 == n;
  }

  lemma {:induction false} Pow2IsPowerOfTwo(k: nat)
    ensures IsPowerOfTwo(Pow2(k))
  {
    if k > 0 {
      Pow2IsPowerOfTwo(k - 1);
      DoubleIsPowerOfTwo(Pow2(k - 1));
    }
  }
}

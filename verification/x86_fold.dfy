/** Whether a load may be folded into the instruction that uses it: folding
    node N into its user U is unsafe when U reaches N along some other
    path, since N would then be both above and below U. */
module X86Fold {
  import opened Wrappers
  import opened X86Dag
  import opened X86Address
  import opened X86SelectAddr

  /** Node `a` reaches node `d` along a path of one or more operand edges. */
  predicate Reaches(g: Graph, a: nat, d: nat)
    requires Ordered(g)
    decreases |g| - a
  {
    && a < |g|
    && exists k :: 0 <= k < |g[a].operands| && (g[a].operands[k].node == d || Reaches(g, g[a].operands[k].node, d))
  }

  /** U reaches D through an operand other than D itself: the cycle
      findNonImmUse looks for. */
  predicate NonImmUse(g: Graph, u: nat, d: nat)
    requires Ordered(g) && u < |g|
  {
    exists k :: 0 <= k < |g[u].operands| && g[u].operands[k].node != d && Reaches(g, g[u].operands[k].node, d)
  }

  /** Paths only go to larger ids. */
  lemma {:induction false} ReachesForward(g: Graph, a: nat, d: nat)
    requires Ordered(g) && Reaches(g, a, d)
    ensures a < d
    decreases |g| - a
  {
    var k :| 0 <= k < |g[a].operands| &&
      (g[a].operands[k].node == d || Reaches(g, g[a].operands[k].node, d));
    if g[a].operands[k].node != d {
      ReachesForward(g, g[a].operands[k].node, d);
    }
  }

  /** A path to `n` followed by the edge from `n` to `d` is a path to `d`. */
  lemma {:induction false} ReachesThen(g: Graph, a: nat, n: nat, d: nat)
    requires Ordered(g) && n < |g|
    requires a == n || Reaches(g, a, n)
    requires exists k :: 0 <= k < |g[n].operands| && g[n].operands[k].node == d
    ensures Reaches(g, a, d)
    decreases |g| - a
  {
    if a != n {
      var k :| 0 <= k < |g[a].operands| &&
        (g[a].operands[k].node == n || Reaches(g, g[a].operands[k].node, n));
      ReachesThen(g, g[a].operands[k].node, n, d);
    }
  }

  /** The nodes the search starts from: U's operands other than D. */
  function Roots(g: Graph, u: nat, d: nat): set<nat>
    requires u < |g|
  {
    set k | 0 <= k < |g[u].operands| && g[u].operands[k].node != d :: g[u].operands[k].node
  }

  /** A node the search may reach: a root, or reached from one. */
  ghost predicate Below(g: Graph, u: nat, d: nat, n: nat)
    requires Ordered(g) && u < |g|
  {
    exists r :: r in Roots(g, u, d) && (r == n || Reaches(g, r, n))
  }

  /** Every root, and every operand of a visited node, is not D and is
      visited, still pending, or numbered above D. */
  predicate Closed(g: Graph, u: nat, d: nat, visited: set<nat>, pending: seq<nat>)
    requires Ordered(g) && u < |g|
  {
    && (forall r :: r in Roots(g, u, d) ==> r in visited || r in pending || r > d)
    && forall n, k :: n in visited && n < |g| && 0 <= k < |g[n].operands| ==>
      g[n].operands[k].node != d
      && (g[n].operands[k].node in visited || g[n].operands[k].node in pending || g[n].operands[k].node > d)
  }

  /** Nothing in a closed set of visited nodes reaches D. */
  lemma {:induction false} ClosedUnreached(g: Graph, u: nat, d: nat, visited: set<nat>, a: nat)
    requires Ordered(g) && u < |g| && Closed(g, u, d, visited, []) && a in visited
    ensures !Reaches(g, a, d)
    decreases |g| - a
  {
    if Reaches(g, a, d) {
      var k :| 0 <= k < |g[a].operands| &&
        (g[a].operands[k].node == d || Reaches(g, g[a].operands[k].node, d));
      var m := g[a].operands[k].node;
      if m in visited {
        ClosedUnreached(g, u, d, visited, m);
      } else {
        ReachesForward(g, m, d);
      }
    }
  }

  /** The operand nodes of node `n`, in order. */
  function OperandNodes(g: Graph, n: nat): (r: seq<nat>)
    requires n < |g|
    ensures |r| == |g[n].operands|
    ensures forall k :: 0 <= k < |r| ==> r[k] == g[n].operands[k].node
  {
    seq(|g[n].operands|, k requires 0 <= k < |g[n].operands| => g[n].operands[k].node)
  }

  /** Dropping a pending node that is already visited or above D keeps the
      search closed. */
  lemma SkipKeepsClosed(g: Graph, u: nat, d: nat, visited: set<nat>, stack: seq<nat>)
    requires Ordered(g) && u < |g| && |stack| > 0
    requires stack[|stack| - 1] in visited || stack[|stack| - 1] > d
    requires Closed(g, u, d, visited, stack)
    ensures Closed(g, u, d, visited, stack[..|stack| - 1])
  {
    assert stack == stack[..|stack| - 1] + [stack[|stack| - 1]];
  }

  /** Visiting a pending node none of whose operands is D, and pushing its
      operands, keeps the search closed. */
  lemma VisitKeepsClosed(g: Graph, u: nat, d: nat, visited: set<nat>, stack: seq<nat>)
    requires Ordered(g) && u < |g| && |stack| > 0 && stack[|stack| - 1] < |g|
    requires d !in OperandNodes(g, stack[|stack| - 1])
    requires Closed(g, u, d, visited, stack)
    ensures var n := stack[|stack| - 1];
      Closed(g, u, d, visited + {n}, stack[..|stack| - 1] + OperandNodes(g, n))
  {
    var n := stack[|stack| - 1];
    assert stack == stack[..|stack| - 1] + [n];
    var stack' := stack[..|stack| - 1] + OperandNodes(g, n);
    forall m, k | m in visited + {n} && m < |g| && 0 <= k < |g[m].operands|
      ensures g[m].operands[k].node != d
      ensures var o := g[m].operands[k].node; o in visited + {n} || o in stack' || o > d
    {
      if m == n {
        assert OperandNodes(g, n)[k] == g[m].operands[k].node;
      }
    }
  }

  /** A node below a root that has D as an operand closes a path from the
      root to D. */
  lemma FoundMeansCycle(g: Graph, u: nat, d: nat, n: nat)
    requires Ordered(g) && u < |g| && n < |g|
    requires Below(g, u, d, n) && d in OperandNodes(g, n)
    ensures NonImmUse(g, u, d)
  {
    var r :| r in Roots(g, u, d) && (r == n || Reaches(g, r, n));
    ReachesThen(g, r, n, d);
    var k :| 0 <= k < |g[u].operands| && g[u].operands[k].node != d && g[u].operands[k].node == r;
  }

  /** The operands of a node below a root are below it too. */
  lemma OperandsBelow(g: Graph, u: nat, d: nat, n: nat)
    requires Ordered(g) && u < |g| && n < |g| && Below(g, u, d, n)
    ensures forall m :: m in OperandNodes(g, n) ==> Below(g, u, d, m)
  {
    forall m | m in OperandNodes(g, n)
      ensures Below(g, u, d, m)
    {
      var r :| r in Roots(g, u, d) && (r == n || Reaches(g, r, n));
      ReachesThen(g, r, n, m);
    }
  }

  /** When the search ends with nothing pending, no root reaches D. */
  lemma ClosedMeansNoCycle(g: Graph, u: nat, d: nat, visited: set<nat>)
    requires Ordered(g) && u < |g| && Closed(g, u, d, visited, [])
    ensures !NonImmUse(g, u, d)
  {
    forall k | 0 <= k < |g[u].operands| && g[u].operands[k].node != d
      ensures !Reaches(g, g[u].operands[k].node, d)
    {
      var r := g[u].operands[k].node;
      assert r in Roots(g, u, d);
      if r in visited {
        ClosedUnreached(g, u, d, visited, r);
      } else if Reaches(g, r, d) {
        ReachesForward(g, r, d);
      }
    }
  }

  /** The roots, in operand order. */
  method PushRoots(g: Graph, u: nat, d: nat) returns (stack: seq<nat>)
    requires u < |g|
    ensures forall j :: 0 <= j < |stack| ==> stack[j] in Roots(g, u, d)
    ensures forall r :: r in Roots(g, u, d) ==> r in stack
  {
    stack := [];
    var i := 0;
    while i < |g[u].operands|
      invariant 0 <= i <= |g[u].operands|
      invariant forall j :: 0 <= j < |stack| ==> stack[j] in Roots(g, u, d)
      invariant forall k :: 0 <= k < i && g[u].operands[k].node != d ==> g[u].operands[k].node in stack
    {
      if g[u].operands[i].node != d {
        stack := stack + [g[u].operands[i].node];
      }
      i := i + 1;
    }
  }

  /** isNonImmUse: a depth-first search from U's operands other than D,
      pruned at nodes numbered above D (which cannot reach it) and at
      nodes already visited, stopping at the first node with D as an
      operand. */
  method IsNonImmUse(g: Graph, u: nat, d: nat) returns (found: bool)
    requires Ordered(g) && u < |g| && d < |g|
    ensures found <==> NonImmUse(g, u, d)
  {
    var stack: seq<nat> := PushRoots(g, u, d);
    var visited: set<nat> := {};
    found := false;
    while |stack| > 0 && !found
      invariant forall j :: 0 <= j < |stack| ==> stack[j] < |g| && Below(g, u, d, stack[j])
      invariant forall n :: n in visited ==> n < |g|
      invariant found ==> NonImmUse(g, u, d)
      invariant !found ==> Closed(g, u, d, visited, stack)
      decreases (set m: nat | m < |g| && m !in visited), |stack|
    {
      var n := stack[|stack| - 1];
      if n > d || n in visited {
        SkipKeepsClosed(g, u, d, visited, stack);
        stack := stack[..|stack| - 1];
        continue;
      }
      ghost var unvisited := set m: nat | m < |g| && m !in visited;
      assert n in unvisited;
      var operands := OperandNodes(g, n);
      if d in operands {
        found := true;
        FoundMeansCycle(g, u, d, n);
      } else {
        VisitKeepsClosed(g, u, d, visited, stack);
        OperandsBelow(g, u, d, n);
        stack := stack[..|stack| - 1] + operands;
      }
      visited := visited + {n};
      assert (set m: nat | m < |g| && m !in visited) == unvisited - {n};
    }
    if !found {
      ClosedMeansNoCycle(g, u, d, visited);
    }
  }

  /** CanBeFoldedBy: N may be folded into U unless fast selection is on or
      U reaches N through another operand. */
  method CanBeFoldedBy(fastISel: bool, g: Graph, n: nat, u: nat) returns (ok: bool)
    requires Ordered(g) && u < |g| && n < |g|
    ensures ok <==> !fastISel && !NonImmUse(g, u, n)
  {
    if fastISel {
      return false;
    }
    var cycle := IsNonImmUse(g, u, n);
    ok := !cycle;
  }

  /** The conditions under which TryFoldLoad folds the load `nv` into its
      user `p`. */
  predicate Foldable(fastISel: bool, g: Graph, p: nat, nv: Val)
    requires WellFormed(g) && p < |g| && nv.node < |g|
  {
    && g[nv.node].op == Load
    && HasOneUse(g, nv)
    && IsOnlyUse(g, p, nv.node)
    && !fastISel
    && !NonImmUse(g, p, nv.node)
  }

  /** TryFoldLoad: the memory operand of a load that may be folded into
      `p`, built from the load's pointer operand. */
  method TryFoldLoad(fastISel: bool, pol: Policy, g: Graph, sel: set<nat>, p: nat, nv: Val)
    returns (r: Option<MemOperands>)
    requires WellFormed(g) && p < |g| && nv.node < |g|
    ensures r.Some? ==> Foldable(fastISel, g, p, nv)
    ensures r.Some? ==> r == SelectAddr(pol, g, sel, g[nv.node].operands[1])
    ensures Foldable(fastISel, g, p, nv) ==> r == SelectAddr(pol, g, sel, g[nv.node].operands[1])
  {
    if g[nv.node].op == Load && HasOneUse(g, nv) && IsOnlyUse(g, p, nv.node) {
      var ok := CanBeFoldedBy(fastISel, g, nv.node, p);
      if ok {
        return SelectAddr(pol, g, sel, g[nv.node].operands[1]);
      }
    }
    return None;
  }
}

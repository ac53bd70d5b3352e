/** The pass that runs before selection to expose read-modify-write
    patterns: a store of op(load p, x) to p whose chain is a TokenFactor
    that also waits on the load gets the load moved below the TokenFactor,
    so that the store's chain is the load itself.

    This pass runs before the nodes are renumbered, so the graph here need
    not satisfy `Ordered`; it only needs operands that name nodes of the
    graph. */
module X86Rmw {
  import opened Wrappers
  import opened X86Dag

  /** Every operand names a node of the graph. */
  predicate InRange(g: Graph) {
    forall n, k :: 0 <= n < |g| && 0 <= k < |g[n].operands| ==> g[n].operands[k].node < |g|
  }

  predicate Shape(g: Graph) {
    InRange(g) && Arities(g)
  }

  /** The opcodes whose either operand may be the load. */
  predicate Commutes(op: Opcode) {
    op in {Add, Mul, And, Or, Xor, AddC, AddE}
  }

  /** The opcodes whose first operand only may be the load. */
  predicate LeftOnly(op: Opcode) {
    op in {Sub, Shl, Sra, Srl, Rotl, Rotr, SubC, SubE, Shld, Shrd}
  }

  /** The load the store's value is computed from, if it is one: the first
      operand if that is a load, else (for a commuting operator) the second
      if that is one. */
  function LoadOperand(g: Graph, n1: Val): (r: Option<Val>)
    requires Shape(g) && n1.node < |g|
    ensures r.Some? ==> r.value.node < |g| && g[r.value.node].op == Load
    ensures r.Some? ==> (Commutes(g[n1.node].op) || LeftOnly(g[n1.node].op))
    ensures r.Some? ==>
      || r.value == g[n1.node].operands[0]
      || (Commutes(g[n1.node].op) && r.value == g[n1.node].operands[1] && g[g[n1.node].operands[0].node].op != Load)
  {
    var op := g[n1.node].op;
    if Commutes(op) || LeftOnly(op) then
      var n10 := g[n1.node].operands[0];
      var n11 := g[n1.node].operands[1];
      if g[n10.node].op == Load then Some(n10)
      else if Commutes(op) && g[n11.node].op == Load then Some(n11)
      else None
    else None
  }

  /** The conditions the load must meet: it is an operand of the
      TokenFactor, its value has one use, it loads from the store's
      address, and its type is the stored value's. */
  predicate LoadFits(g: Graph, tf: nat, n1: Val, n2: Val, load: Val)
    requires Shape(g) && tf < |g| && n1.node < |g| && load.node < |g| && g[load.node].op == Load
  {
    && UsesNode(g, tf, load.node)
    && HasOneUse(g, load)
    && g[load.node].operands[1] == n2
    && g[load.node].vt == g[n1.node].vt
  }

  /** The load to move for the store `s`, if `s` is a read-modify-write
      candidate: a store chained on a TokenFactor, of a single-use integer
      value computed from a fitting load. */
  function RmwLoad(g: Graph, s: nat): (r: Option<Val>)
    requires Shape(g) && s < |g|
    ensures r.Some? ==> g[s].op == Store && g[g[s].operands[0].node].op == TokenFactor
    ensures r.Some? ==> var n1 := g[s].operands[1];
      && !g[n1.node].vt.FloatType? && !g[n1.node].vt.VectorType? && HasOneUse(g, n1)
      && LoadOperand(g, n1) == r
      && LoadFits(g, g[s].operands[0].node, n1, g[s].operands[2], r.value)
  {
    if g[s].op != Store then None
    else
      var chain := g[s].operands[0];
      var n1 := g[s].operands[1];
      var n2 := g[s].operands[2];
      if g[chain.node].op != TokenFactor then None
      else if g[n1.node].vt.FloatType? || g[n1.node].vt.VectorType? || !HasOneUse(g, n1) then None
      else
        var load := LoadOperand(g, n1);
        if load.Some? && LoadFits(g, chain.node, n1, n2, load.value) then load else None
  }

  /** The store is a candidate exactly when the chosen load fits. */
  lemma RmwLoadComplete(g: Graph, s: nat)
    requires Shape(g) && s < |g| && g[s].op == Store
    requires g[g[s].operands[0].node].op == TokenFactor
    requires var n1 := g[s].operands[1];
      !g[n1.node].vt.FloatType? && !g[n1.node].vt.VectorType? && HasOneUse(g, n1)
    requires var l := LoadOperand(g, g[s].operands[1]);
      l.Some? && LoadFits(g, g[s].operands[0].node, g[s].operands[1], g[s].operands[2], l.value)
    ensures RmwLoad(g, s) == LoadOperand(g, g[s].operands[1])
  {
  }

  /** The TokenFactor's operands with the load replaced by the load's own
      chain. */
  function Rechain(ops: seq<Val>, load: nat, loadChain: Val): seq<Val>
  {
    seq(|ops|, k requires 0 <= k < |ops| => if ops[k].node == load then loadChain else ops[k])
  }

  /** MoveBelowTokenFactor: the TokenFactor waits on the load's chain
      instead of the load, the load waits on the TokenFactor, and the store
      waits on the load's chain result. */
  function MoveBelowTokenFactor(g: Graph, load: nat, store: nat, tf: Val): (g': Graph)
    requires Shape(g) && load < |g| && store < |g| && tf.node < |g|
    requires g[load].op == Load && g[store].op == Store && g[tf.node].op == TokenFactor
    ensures |g'| == |g|
    ensures forall n :: 0 <= n < |g| ==> g'[n].op == g[n].op && g'[n].vt == g[n].vt
    ensures forall n :: 0 <= n < |g| && n != load && n != store && n != tf.node ==> g'[n] == g[n]
    ensures g'[tf.node].operands == Rechain(g[tf.node].operands, load, g[load].operands[0])
    ensures g'[load].operands == [tf, g[load].operands[1], g[load].operands[2]]
    ensures g'[store].operands == [Val(load, 1)] + g[store].operands[1..]
  {
    var ops := g[store].operands;
    g[tf.node := g[tf.node].(operands := Rechain(g[tf.node].operands, load, g[load].operands[0]))]
     [load := g[load].(operands := [tf, g[load].operands[1], g[load].operands[2]])]
     [store := g[store].(operands := [Val(load, 1), ops[1], ops[2], ops[3]])]
  }

  /** The move keeps every operand in range and every arity. */
  lemma MoveKeepsShape(g: Graph, load: nat, store: nat, tf: Val)
    requires Shape(g) && load < |g| && store < |g| && tf.node < |g|
    requires g[load].op == Load && g[store].op == Store && g[tf.node].op == TokenFactor
    ensures Shape(MoveBelowTokenFactor(g, load, store, tf))
  {
    var g' := MoveBelowTokenFactor(g, load, store, tf);
    forall n, k | 0 <= n < |g'| && 0 <= k < |g'[n].operands|
      ensures g'[n].operands[k].node < |g'|
    {
      if n == tf.node {
        assert g'[n].operands[k] == g[n].operands[k] || g'[n].operands[k] == g[load].operands[0];
      }
    }
  }

  /** After the move the store reads and writes through the load exactly
      as a read-modify-write instruction needs: its chain is the load's
      chain result, the load is chained on the TokenFactor, the load still
      reads the store's address, and the TokenFactor no longer waits on the
      load but on everything the load waited on. */
  lemma MoveMakesRmw(g: Graph, s: nat)
    requires Shape(g) && s < |g| && RmwLoad(g, s).Some?
    ensures var load := RmwLoad(g, s).value.node;
      var tf := g[s].operands[0];
      var g' := MoveBelowTokenFactor(g, load, s, tf);
      && g'[s].operands[0] == Val(load, 1)
      && g'[s].operands[1..] == g[s].operands[1..]
      && g'[load].operands[0] == tf
      && g'[load].operands[1] == g'[s].operands[2]
      && g[load].operands[0] in g'[tf.node].operands
      && (forall k :: 0 <= k < |g[tf.node].operands| && g[tf.node].operands[k].node != load ==>
            g[tf.node].operands[k] == g'[tf.node].operands[k])
  {
    var load := RmwLoad(g, s).value.node;
    var tf := g[s].operands[0];
    var g' := MoveBelowTokenFactor(g, load, s, tf);
    var k :| 0 <= k < |g[tf.node].operands| && g[tf.node].operands[k].node == load;
    assert g'[tf.node].operands[k] == g[load].operands[0];
  }

  /** One step of the pass: move the load of store `s` if it has one. */
  function Step(g: Graph, s: nat): (g': Graph)
    requires Shape(g) && s < |g|
    ensures Shape(g') && |g'| == |g|
    ensures forall n :: 0 <= n < |g| ==> g'[n].op == g[n].op && g'[n].vt == g[n].vt
  {
    var load := RmwLoad(g, s);
    if load.Some? then
      MoveKeepsShape(g, load.value.node, s, g[s].operands[0]);
      MoveBelowTokenFactor(g, load.value.node, s, g[s].operands[0])
    else g
  }

  /** What a step does to store `s`: it is rewritten to be chained on its
      load exactly when it is a candidate. */
  lemma StepRewritesStore(g: Graph, s: nat)
    requires Shape(g) && s < |g|
    ensures RmwLoad(g, s).None? ==> Step(g, s) == g
    ensures RmwLoad(g, s).Some? ==>
      Step(g, s)[s] == g[s].(operands := [Val(RmwLoad(g, s).value.node, 1)] + g[s].operands[1..])
  {
  }

  /** A step touches no other store: a move changes only its own store, a
      load and a TokenFactor. */
  lemma StepKeepsOtherStore(g: Graph, s: nat, n: nat)
    requires Shape(g) && s < |g| && n < |g| && n != s && g[n].op == Store
    ensures Step(g, s)[n] == g[n]
  {
  }

  /** The graph as the pass reaches node i: steps 0 to i - 1 applied in
      order, each to the graph the previous one left. */
  function Reached(g: Graph, i: nat): (h: Graph)
    requires Shape(g) && i <= |g|
    ensures Shape(h) && |h| == |g|
    ensures forall n :: 0 <= n < |g| ==> h[n].op == g[n].op && h[n].vt == g[n].vt
  {
    if i == 0 then g else Step(Reached(g, i - 1), i - 1)
  }

  /** Store s as the pass leaves it, given the graph h the pass has made
      by the time it reaches s: chained on its load's chain result if it is
      a candidate in h, otherwise as it was in g. */
  function Rewritten(g: Graph, h: Graph, s: nat): Node
    requires Shape(g) && Shape(h) && s < |g| == |h| && g[s].op == Store
  {
    var load := RmwLoad(h, s);
    if load.Some? then g[s].(operands := [Val(load.value.node, 1)] + g[s].operands[1..]) else g[s]
  }

  /** One step on the stores: step i rewrites store i as `Rewritten` says
      and leaves every other store alone. */
  lemma StepOnStores(g: Graph, h: Graph, i: nat)
    requires Shape(g) && Shape(h) && i < |g| == |h|
    requires forall n :: 0 <= n < |g| ==> h[n].op == g[n].op
    requires g[i].op == Store ==> h[i] == g[i]
    ensures g[i].op == Store ==> Step(h, i)[i] == Rewritten(g, h, i)
    ensures forall n :: 0 <= n < |g| && n != i && g[n].op == Store ==> Step(h, i)[n] == h[n]
  {
  }

  /** Where the pass stands after steps 0 to i - 1: the graph is the one
      reached, nodes the pass never changes are as they were, stores not yet
      reached are untouched and stores already passed are rewritten. */
  predicate Progress(g: Graph, h: Graph, i: nat)
    requires Shape(g) && i <= |g|
  {
    && h == Reached(g, i)
    && (forall n :: 0 <= n < |g| && g[n].op !in {Store, Load, TokenFactor} ==> h[n] == g[n])
    && (forall s :: i <= s < |g| && g[s].op == Store ==> h[s] == g[s])
    && (forall s :: 0 <= s < i && g[s].op == Store ==> h[s] == Rewritten(g, Reached(g, s), s))
  }

  /** Step i changes no node other than stores, loads and TokenFactors. */
  lemma StepKeepsOtherKinds(g: Graph, h: Graph, i: nat)
    requires Shape(g) && i < |g| && Progress(g, h, i)
    ensures forall n :: 0 <= n < |g| && g[n].op !in {Store, Load, TokenFactor} ==> Step(h, i)[n] == g[n]
  {
  }

  /** Step i leaves the stores after i as they were. */
  lemma StepKeepsLaterStores(g: Graph, h: Graph, i: nat)
    requires Shape(g) && i < |g| && Progress(g, h, i)
    ensures forall s :: i + 1 <= s < |g| && g[s].op == Store ==> Step(h, i)[s] == g[s]
  {
    StepOnStores(g, h, i);
  }

  /** After step i, the stores up to i are rewritten and stay so. */
  lemma StepSettlesStores(g: Graph, h: Graph, i: nat)
    requires Shape(g) && i < |g| && Progress(g, h, i)
    ensures forall s :: 0 <= s < i + 1 && g[s].op == Store ==> Step(h, i)[s] == Rewritten(g, Reached(g, s), s)
  {
    StepOnStores(g, h, i);
  }

  /** Step i carries the pass from node i to node i + 1. */
  lemma ProgressStep(g: Graph, h: Graph, i: nat)
    requires Shape(g) && i < |g| && Progress(g, h, i)
    ensures Progress(g, Step(h, i), i + 1)
  {
    StepKeepsOtherKinds(g, h, i);
    StepKeepsLaterStores(g, h, i);
    StepSettlesStores(g, h, i);
  }

  /** InstructionSelectPreprocess, which runs unless fast instruction
      selection is on: every node in turn, each on the graph as the earlier
      steps left it. Each store ends up chained on its load's chain result
      exactly when it is a candidate in the graph as the pass reaches it,
      and is otherwise left as it was. */
  method Preprocess(fastISel: bool, g: Graph) returns (g': Graph)
    requires Shape(g)
    ensures fastISel ==> g' == g
    ensures Shape(g') && |g'| == |g|
    ensures forall n :: 0 <= n < |g| ==> g'[n].op == g[n].op && g'[n].vt == g[n].vt
    ensures forall n :: 0 <= n < |g| && g[n].op !in {Store, Load, TokenFactor} ==> g'[n] == g[n]
    ensures !fastISel ==> g' == Reached(g, |g|)
    ensures !fastISel ==> forall s :: 0 <= s < |g| && g[s].op == Store ==> g'[s] == Rewritten(g, Reached(g, s), s)
  {
    g' := g;
    if fastISel {
      return;
    }
    var i := 0;
    while i < |g|
      invariant 0 <= i <= |g|
      invariant Progress(g, g', i)
    {
      ProgressStep(g, g', i);
      g' := Step(g', i);
      i := i + 1;
    }
  }
}

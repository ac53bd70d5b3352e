/** The SelectionDAG as the X86 instruction selector sees it: nodes with an
    opcode, a list of operand values and the type of their first result,
    stored in a sequence indexed by node id.

    Node ids follow the topological numbering the selector relies on: the
    ids are assigned starting from the root, so every operand of a node has
    a LARGER id than the node itself. */
module X86Dag {
  import opened Wrappers
  import opened Powers

  /** What a Wrapper node wraps: a global address or a constant-pool entry
      (each with its byte offset), or another symbol kind. */
  datatype Symbol =
    | GlobalSym(gv: nat, offset: nat)
    | PoolSym(cp: nat, align: nat, offset: nat)
    | ExternalSym

  /** The type of a node's first result, as far as the selector asks. */
  datatype ValueType = IntType(bits: nat) | FloatType(bits: nat) | VectorType | OtherType

  /** The opcodes the selector core distinguishes.  Constants and offsets
      are naturals: a negative offset stands for its unsigned 32-bit
      residue, which is what the source adds into the displacement. */
  datatype Opcode =
    | Constant(value: nat)
    | Wrapper(sym: Symbol)
    | FrameIndex(index: nat)
    | Add | Mul | Or | Shl
    | And | Xor | AddC | AddE
    | Sub | Sra | Srl | Rotl | Rotr | SubC | SubE | Shld | Shrd
    | Load | Store | TokenFactor
    | MulHU | MulHS | SDiv | UDiv | SRem | URem | Truncate
    | GlobalBaseReg
      /** A node already turned into a machine instruction. */
    | TargetOp
    | OtherOp

  /** Result `res` of node `node` (an SDOperand). */
  datatype Val = Val(node: nat, res: nat)

  datatype Node = Node(op: Opcode, operands: seq<Val>, vt: ValueType)

  type Graph = seq<Node>

  /** Opcodes with (at least) two value operands: the two inputs, then for
      the carry-using forms the incoming carry and for the double shifts
      the amount. */
  predicate IsBinary(op: Opcode) {
    op in {Add, Mul, Or, Shl, And, Xor, AddC, AddE, Sub, Sra, Srl, Rotl, Rotr, SubC, SubE,
           Shld, Shrd, MulHU, MulHS, SDiv, UDiv, SRem, URem}
  }

  /** Every operand is a node of the graph with a larger id than its user. */
  predicate Ordered(g: Graph) {
    forall n, k :: 0 <= n < |g| && 0 <= k < |g[n].operands| ==> n < g[n].operands[k].node < |g|
  }

  /** Operand counts: two for the plain binary operators, at least two for
      the others, (chain, pointer, source value) for a load, (chain, value,
      pointer, source value) for a store, one for a truncation. */
  predicate Arities(g: Graph) {
    forall n :: 0 <= n < |g| ==>
      && (IsBinary(g[n].op) ==> |g[n].operands| >= 2)
      && (g[n].op in {Add, Mul, Or, Shl} ==> |g[n].operands| == 2)
      && (g[n].op == Load ==> |g[n].operands| == 3)
      && (g[n].op == Store ==> |g[n].operands| == 4)
      && (g[n].op == Truncate ==> |g[n].operands| == 1)
  }

  /** Opcodes whose nodes have exactly one result. */
  predicate SingleResult(op: Opcode) {
    op.Constant? || op.Wrapper? || op.FrameIndex? || op in {Add, Mul, Or, Shl}
  }

  /** Operands name only results their node has: a single-result node is
      always used through result 0. */
  predicate ResultsExist(g: Graph)
    requires Ordered(g)
  {
    forall n, k :: 0 <= n < |g| && 0 <= k < |g[n].operands| && SingleResult(g[g[n].operands[k].node].op) ==>
      g[n].operands[k].res == 0
  }

  predicate WellFormed(g: Graph) {
    Ordered(g) && Arities(g) && ResultsExist(g)
  }

  /** How many operand slots of `ops` hold `v`. */
  function CountIn(ops: seq<Val>, v: Val): nat {
    if |ops| == 0 then 0 else (if ops[0] == v then 1 else 0) + CountIn(ops[1..], v)
  }

  /** SDOperand::use_size: how many operand slots in the graph hold `v`. */
  function Uses(g: Graph, v: Val): nat {
    if |g| == 0 then 0 else CountIn(g[0].operands, v) + Uses(g[1..], v)
  }

  predicate HasOneUse(g: Graph, v: Val) {
    Uses(g, v) == 1
  }

  /** Node `u` has some operand taken from node `n` (any result). */
  predicate UsesNode(g: Graph, u: nat, n: nat)
    requires u < |g|
  {
    exists k :: 0 <= k < |g[u].operands| && g[u].operands[k].node == n
  }

  /** SDNode::isOnlyUse: node `n` has at least one user and `p` is its
      only user. */
  predicate IsOnlyUse(g: Graph, p: nat, n: nat)
    requires p < |g|
  {
    && UsesNode(g, p, n)
    && forall u :: 0 <= u < |g| && u != p ==> !UsesNode(g, u, n)
  }

  /** The constant held by the node an operand comes from, if it is one
      (dyn_cast<ConstantSDNode>). */
  function ConstantOf(g: Graph, v: Val): Option<nat>
  {
    if v.node < |g| && g[v.node].op.Constant? then Some(g[v.node].op.value) else None
  }

  /** What the values of the DAG's leaves are: the registers and loads the
      selector does not look into, and the addresses of globals,
      constant-pool entries and stack slots. */
  datatype Env = Env(
    leaf: (nat, nat) -> nat,
    global: nat -> nat,
    pool: nat -> nat,
    frame: nat -> nat)

  /** Both operands of node `n` exist and come after it. */
  predicate TwoOperands(g: Graph, n: nat)
    requires n < |g|
  {
    |g[n].operands| == 2 && n < g[n].operands[0].node && n < g[n].operands[1].node
  }

  /** `a * b`, as `b` additions of `a`. */
  function Product(a: nat, b: nat): nat
    decreases b
  {
    if b == 0 then 0 else Product(a, b - 1) + a
  }

  /** `x << n`, as `n` doublings. */
  function ShiftLeft(x: nat, n: nat): nat
    decreases n
  {
    if n == 0 then x else 2 * ShiftLeft(x, n - 1)
  }

  lemma {:induction false} ProductIsMul(a: nat, b: nat)
    ensures Product(a, b) == a * b
    decreases b
  {
    if b > 0 {
      ProductIsMul(a, b - 1);
    }
  }

  lemma {:induction false} ShiftLeftIsMul(x: nat, n: nat)
    ensures ShiftLeft(x, n) == x * Pow2(n)
    decreases n
  {
    if n > 0 {
      ShiftLeftIsMul(x, n - 1);
    }
  }

  /** The value a DAG value computes, as an exact natural number: constants,
      symbol and stack addresses, and addition, multiplication, or and shift
      left; everything else (and every result but the first) is a leaf.  The
      32-bit value the machine computes is this number modulo 2^32, since
      each of these operations commutes with taking that residue. */
  function Value(g: Graph, env: Env, v: Val): nat
    decreases |g| - v.node
  {
    if v.node >= |g| || v.res != 0 then env.leaf(v.node, v.res)
    else
      var n := v.node;
      match g[n].op
      case Constant(c) => c
      case Wrapper(GlobalSym(gv, off)) => env.global(gv) + off
      case Wrapper(PoolSym(cp, _, off)) => env.pool(cp) + off
      case FrameIndex(fi) => env.frame(fi)
      case Add =>
        if TwoOperands(g, n) then Value(g, env, g[n].operands[0]) + Value(g, env, g[n].operands[1])
        else env.leaf(n, 0)
      case Mul =>
        if TwoOperands(g, n) then Product(Value(g, env, g[n].operands[0]), Value(g, env, g[n].operands[1]))
        else env.leaf(n, 0)
      case Or =>
        if TwoOperands(g, n) then BitOr(Value(g, env, g[n].operands[0]), Value(g, env, g[n].operands[1]))
        else env.leaf(n, 0)
      case Shl =>
        if TwoOperands(g, n) then ShiftLeft(Value(g, env, g[n].operands[0]), Value(g, env, g[n].operands[1]))
        else env.leaf(n, 0)
      case _ => env.leaf(n, 0)
  }
}

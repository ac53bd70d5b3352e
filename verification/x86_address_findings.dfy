/** Two small DAGs on which the matcher's rules as written produce a memory
    operand whose address is not the value of the node it replaces, while
    the corrected rules produce the right one. */
module X86AddressFindings {
  import opened Wrappers
  import opened Powers
  import opened X86Dag
  import opened X86Address
  import opened X86AddressSoundness
  import opened X86SelectAddr

  /** Every leaf is 1, every global is at 16, every pool entry at 32. */
  const SampleEnv := Env((n: nat, r: nat) => 1, (gv: nat) => 16, (cp: nat) => 32, (fi: nat) => 0)

  // ---------------------------------------------------------------------
  // or(mul(X, 9), 1)
  // ---------------------------------------------------------------------

  /** Node 0 = or(node 1, node 2), node 1 = mul(node 3, node 4), node 2 =
      the constant 1, node 3 = a register X, node 4 = the constant 9. */
  const OrOfMul: Graph := [
    Node(Or, [Val(1, 0), Val(2, 0)], IntType(32)),
    Node(Mul, [Val(3, 0), Val(4, 0)], IntType(32)),
    Node(Constant(1), [], IntType(32)),
    Node(OtherOp, [], IntType(32)),
    Node(Constant(9), [], IntType(32))
  ]

  lemma OrOfMulOrdered()
    ensures Ordered(OrOfMul)
  {
    var g := OrOfMul;
    assert |g[2].operands| == 0 && |g[3].operands| == 0 && |g[4].operands| == 0;
    forall n, k | 0 <= n < |g| && 0 <= k < |g[n].operands|
      ensures n < g[n].operands[k].node < |g|
    {
      assert n == 0 || n == 1;
    }
  }

  lemma OrOfMulArities()
    ensures Arities(OrOfMul)
  {
    var g := OrOfMul;
    forall n | 0 <= n < |g|
      ensures g[n].op in {Or, Mul} ==> |g[n].operands| == 2
      ensures !(g[n].op in {Or, Mul}) ==> g[n].op.Constant? || g[n].op == OtherOp
    {
      assert n == 0 || n == 1 || n == 2 || n == 3 || n == 4;
    }
  }

  lemma OrOfMulResults()
    ensures Ordered(OrOfMul) && ResultsExist(OrOfMul)
  {
    var g := OrOfMul;
    OrOfMulOrdered();
    assert |g[2].operands| == 0 && |g[3].operands| == 0 && |g[4].operands| == 0;
    forall n, k | 0 <= n < |g| && 0 <= k < |g[n].operands|
      ensures g[n].operands[k].res == 0
    {
      assert n == 0 || n == 1;
    }
  }

  lemma OrOfMulWellFormed()
    ensures WellFormed(OrOfMul)
  {
    OrOfMulArities();
    OrOfMulResults();
  }

  /** X + 8*X: the mode both rules build for node 1. */
  const MulMode := EmptyMode.(scale := S8, base := RegBase(Val(3, 0)), index := Some(Val(3, 0)))

  /** Node 1 multiplies X by 9, which both rules take as X + 8*X. */
  lemma MulNodeMatches(p: Policy)
    requires WellFormed(OrOfMul)
    ensures Match(p, OrOfMul, {}, Val(1, 0), EmptyMode) == Some(MulMode)
  {
  }

  /** With X = 1, node 1 is 9 and node 0 is 9 | 1 = 9. */
  lemma OrOfMulValues()
    ensures Value(OrOfMul, SampleEnv, Val(3, 0)) == 1
    ensures Value(OrOfMul, SampleEnv, Val(1, 0)) == 9
    ensures Value(OrOfMul, SampleEnv, Val(0, 0)) == 9
  {
    var g, env := OrOfMul, SampleEnv;
    assert Value(g, env, Val(3, 0)) == 1 && Value(g, env, Val(4, 0)) == 9;
    assert TwoOperands(g, 1);
    assert Value(g, env, Val(1, 0)) == Product(1, 9);
    ProductIsMul(1, 9);
    assert Value(g, env, Val(2, 0)) == 1;
    assert TwoOperands(g, 0);
    assert Value(g, env, Val(0, 0)) == BitOr(9, 1);
    assert BitOr(9, 1) == 2 * BitOr(4, 0) + 1;
  }

  /** As written, the OR rule folds the 1 into the displacement of
      X + 8*X because 1 is below the scale 8; with X = 1 the node is
      9 | 1 = 9 but the operand addresses 10. */
  lemma OrRuleCounterexample()
    ensures WellFormed(OrOfMul)
    ensures var r := SelectAddr(AsWritten, OrOfMul, {}, Val(0, 0));
      r.Some? && MemValue(OrOfMul, SampleEnv, r.value) == 10
    ensures Value(OrOfMul, SampleEnv, Val(0, 0)) == 9
  {
    OrOfMulWellFormed();
    OrNodeMatchesAsWritten();
    OrOfMulValues();
    assert AddressOperands(MulMode.(disp := 1))
      == MemOperands(NodeReg(Val(3, 0)), S8, NodeReg(Val(3, 0)), ImmDisp(1));
  }

  /** As written, node 0 is X + 8*X with the 1 in the displacement. */
  lemma OrNodeMatchesAsWritten()
    requires WellFormed(OrOfMul)
    ensures Match(AsWritten, OrOfMul, {}, Val(0, 0), EmptyMode) == Some(MulMode.(disp := 1))
  {
    var g := OrOfMul;
    MulNodeMatches(AsWritten);
    assert ConstantOf(g, Val(1, 0)).None? && ConstantOf(g, Val(2, 0)) == Some(1);
    assert OrFoldAllowed(AsWritten, g, 1, Val(1, 0), MulMode);
    assert MatchOr(AsWritten, g, {}, Val(0, 0), EmptyMode) == Some(MulMode.(disp := 1));
  }

  /** With the corrected rule the same node is taken as a plain base
      register, whose address is its value. */
  lemma OrRuleCorrected()
    ensures WellFormed(OrOfMul)
    ensures SelectAddr(Corrected, OrOfMul, {}, Val(0, 0))
      == Some(MemOperands(NodeReg(Val(0, 0)), S1, Reg0, ImmDisp(0)))
  {
    OrOfMulWellFormed();
    assert KnownMultiple(OrOfMul, Val(1, 0)) == 1;
    MulNodeMatches(Corrected);
    assert Match(Corrected, OrOfMul, {}, Val(0, 0), EmptyMode) == Some(EmptyMode.(base := RegBase(Val(0, 0))));
  }

  // ---------------------------------------------------------------------
  // add(wrapper(global), wrapper(constant-pool entry))
  // ---------------------------------------------------------------------

  /** Node 0 = add(node 1, node 2), node 1 = a wrapped global, node 2 = a
      wrapped constant-pool entry. */
  const GlobalPlusPool: Graph := [
    Node(Add, [Val(1, 0), Val(2, 0)], IntType(32)),
    Node(Wrapper(GlobalSym(0, 0)), [], IntType(32)),
    Node(Wrapper(PoolSym(0, 4, 0)), [], IntType(32))
  ]

  lemma GlobalPlusPoolOrdered()
    ensures Ordered(GlobalPlusPool)
  {
    var g := GlobalPlusPool;
    assert |g[1].operands| == 0 && |g[2].operands| == 0;
    forall n, k | 0 <= n < |g| && 0 <= k < |g[n].operands|
      ensures n < g[n].operands[k].node < |g|
    {
      assert n == 0;
    }
  }

  lemma GlobalPlusPoolArities()
    ensures Arities(GlobalPlusPool)
  {
    var g := GlobalPlusPool;
    forall n | 0 <= n < |g|
      ensures g[n].op == Add ==> |g[n].operands| == 2
      ensures g[n].op != Add ==> g[n].op.Wrapper?
    {
      assert n == 0 || n == 1 || n == 2;
    }
  }

  lemma GlobalPlusPoolResults()
    ensures Ordered(GlobalPlusPool) && ResultsExist(GlobalPlusPool)
  {
    var g := GlobalPlusPool;
    GlobalPlusPoolOrdered();
    assert |g[1].operands| == 0 && |g[2].operands| == 0;
    forall n, k | 0 <= n < |g| && 0 <= k < |g[n].operands|
      ensures g[n].operands[k].res == 0
    {
      assert n == 0;
    }
  }

  lemma GlobalPlusPoolWellFormed()
    ensures WellFormed(GlobalPlusPool)
  {
    GlobalPlusPoolArities();
    GlobalPlusPoolResults();
  }

  /** As written, the mode takes both symbols, and the operands keep only
      the global: the node is 16 + 32 but the operand addresses 16. */
  lemma WrapperRuleCounterexample()
    ensures WellFormed(GlobalPlusPool)
    ensures var r := SelectAddr(AsWritten, GlobalPlusPool, {}, Val(0, 0));
      r.Some? && r.value.disp == GlobalDisp(0, 0) && MemValue(GlobalPlusPool, SampleEnv, r.value) == 16
    ensures Value(GlobalPlusPool, SampleEnv, Val(0, 0)) == 48
  {
    GlobalPlusPoolWellFormed();
    var withGlobal := EmptyMode.(gv := Some(0));
    assert Match(AsWritten, GlobalPlusPool, {}, Val(1, 0), EmptyMode) == Some(withGlobal);
    assert Match(AsWritten, GlobalPlusPool, {}, Val(2, 0), withGlobal) == Some(withGlobal.(cp := Some(0), align := 4));
  }

  /** With the corrected rule the pool entry goes to the base register and
      the operands address the node's value. */
  lemma WrapperRuleCorrected()
    ensures WellFormed(GlobalPlusPool)
    ensures var r := SelectAddr(Corrected, GlobalPlusPool, {}, Val(0, 0));
      r.Some? && MemValue(GlobalPlusPool, SampleEnv, r.value) == 48
  {
    GlobalPlusPoolWellFormed();
    var withGlobal := EmptyMode.(gv := Some(0));
    assert Match(Corrected, GlobalPlusPool, {}, Val(1, 0), EmptyMode) == Some(withGlobal);
    assert Match(Corrected, GlobalPlusPool, {}, Val(2, 0), withGlobal) == Some(withGlobal.(base := RegBase(Val(2, 0))));
  }
}

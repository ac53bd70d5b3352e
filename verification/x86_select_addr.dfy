/** The two queries built on the matcher: SelectAddr, which turns the
    maximal mode into the four operands of an x86 memory reference, and
    SelectLEAAddr, which does the same only when an LEA is worth it. */
module X86SelectAddr {
  import opened Wrappers
  import opened X86Dag
  import opened X86Address
  import opened X86AddressSoundness

  /** A register operand: register 0 (none), a DAG value, or a stack slot. */
  datatype Operand = Reg0 | NodeReg(v: Val) | TargetFrameIndex(index: nat)

  /** The displacement operand: a global or a constant-pool entry with the
      displacement as its offset, or a plain immediate. */
  datatype DispOperand =
    | GlobalDisp(gv: nat, offset: nat)
    | PoolDisp(cp: nat, align: nat, offset: nat)
    | ImmDisp(value: nat)

  /** Base, scale, index, displacement. */
  datatype MemOperands = MemOperands(base: Operand, scale: Scale, index: Operand, disp: DispOperand)

  /** getAddressOperands, with the empty register slots already filled with
      register 0.  A global takes precedence over a constant-pool entry. */
  function AddressOperands(am: AddressMode): (ops: MemOperands)
    ensures ops.scale == am.scale
    ensures ops.base.Reg0? <==> am.base.NoBase?
    ensures ops.index.Reg0? <==> am.index.None?
    ensures ops.disp.ImmDisp? <==> am.gv.None? && am.cp.None?
    ensures ops.disp.GlobalDisp? ==> am.gv.Some? && ops.disp.gv == am.gv.value && ops.disp.offset == am.disp
    ensures ops.disp.PoolDisp? ==> am.cp.Some? && ops.disp.cp == am.cp.value && ops.disp.offset == am.disp && am.gv.None?
  {
    var base := match am.base
      case NoBase => Reg0
      case RegBase(r) => NodeReg(r)
      case FrameBase(fi) => TargetFrameIndex(fi);
    var index := if am.index.Some? then NodeReg(am.index.value) else Reg0;
    var disp :=
      if am.gv.Some? then GlobalDisp(am.gv.value, am.disp)
      else if am.cp.Some? then PoolDisp(am.cp.value, am.align, am.disp)
      else ImmDisp(am.disp);
    MemOperands(base, am.scale, index, disp)
  }

  /** SelectAddr: the maximal mode's operands, or None when the matcher
      fails. */
  function SelectAddr(p: Policy, g: Graph, sel: set<nat>, v: Val): (r: Option<MemOperands>)
    requires WellFormed(g) && v.node < |g|
    ensures r.Some? <==> Match(p, g, sel, v, EmptyMode).Some?
    ensures r.Some? ==> r.value == AddressOperands(Match(p, g, sel, v, EmptyMode).value)
  {
    var m := Match(p, g, sel, v, EmptyMode);
    if m.Some? then Some(AddressOperands(m.value)) else None
  }

  function OperandValue(g: Graph, env: Env, o: Operand): nat {
    match o
    case Reg0 => 0
    case NodeReg(r) => Value(g, env, r)
    case TargetFrameIndex(fi) => env.frame(fi)
  }

  function DispValue(env: Env, d: DispOperand): nat {
    match d
    case GlobalDisp(gv, off) => env.global(gv) + off
    case PoolDisp(cp, _, off) => env.pool(cp) + off
    case ImmDisp(c) => c
  }

  /** The address the hardware forms from the four operands. */
  function MemValue(g: Graph, env: Env, ops: MemOperands): nat {
    OperandValue(g, env, ops.base) + ops.scale.Times(OperandValue(g, env, ops.index)) + DispValue(env, ops.disp)
  }

  /** The operands denote the mode exactly when the mode has at most one
      symbol. */
  lemma OperandsDenoteMode(g: Graph, env: Env, am: AddressMode)
    requires OneSymbol(am)
    ensures MemValue(g, env, AddressOperands(am)) == AddrValue(g, env, am)
  {
  }

  /** SelectAddr with the corrected rules: the memory operand addresses
      exactly the value of the node it was built from. */
  lemma SelectAddrSound(g: Graph, sel: set<nat>, env: Env, v: Val)
    requires WellFormed(g) && v.node < |g| && Typed(g, v)
    ensures var r := SelectAddr(Corrected, g, sel, v);
      r.Some? ==> MemValue(g, env, r.value) == Value(g, env, v)
  {
    MatchSound(g, sel, env, v, EmptyMode);
    var m := Match(Corrected, g, sel, v, EmptyMode);
    if m.Some? {
      assert EmptyMode.scale.Times(0) == 0;
      OperandsDenoteMode(g, env, m.value);
    }
  }

  // ---------------------------------------------------------------------
  // SelectLEAAddr's cost
  // ---------------------------------------------------------------------

  /** Whether the 32-bit `unsigned` displacement is non-zero. */
  predicate HasDisp(am: AddressMode) {
    am.disp % 0x1_0000_0000 != 0
  }

  /** The part of the score every version shares: 1 for a base register,
      4 for a stack slot, 1 for an index, 2 for a scale above 2 and 1 for
      scale 2, 2 for a symbol. */
  function ScoreWithoutDisp(am: AddressMode): nat {
    (match am.base case NoBase => 0 case RegBase(_) => 1 case FrameBase(_) => 4)
    + (if am.index.Some? then 1 else 0)
    + (match am.scale case S1 => 0 case S2 => 1 case S4 => 2 case S8 => 2)
    + (if am.gv.Some? || am.cp.Some? then 2 else 0)
  }

  /** The score as the source computes it.  The empty register slots are
      filled with register 0 before the displacement test asks whether a
      register is present, and the index slot is always filled by then, so
      a displacement always counts. */
  function LeaScoreAsWritten(am: AddressMode): nat {
    ScoreWithoutDisp(am) + (if HasDisp(am) then 1 else 0)
  }

  /** The evidently intended score: a displacement counts only when it is
      added to a register of the mode. */
  function LeaScore(am: AddressMode): nat {
    ScoreWithoutDisp(am) + (if HasDisp(am) && (am.base.RegBase? || am.index.Some?) then 1 else 0)
  }

  /** The two scores differ exactly on modes with a displacement and no
      register at all, and there the source's is one higher. */
  lemma LeaScoresDiffer(am: AddressMode)
    ensures LeaScoreAsWritten(am) != LeaScore(am)
      <==> HasDisp(am) && !am.base.RegBase? && am.index.None?
    ensures LeaScoreAsWritten(am) != LeaScore(am) ==> LeaScoreAsWritten(am) == LeaScore(am) + 1
  {
  }

  /** A global plus a displacement, with no register: the source scores it
      3 and emits an LEA; the intended score is 2, an add of an immediate. */
  lemma LeaScoreCounterexample()
    ensures var am := EmptyMode.(gv := Some(0), disp := 4);
      LeaScoreAsWritten(am) == 3 && LeaScore(am) == 2
  {
  }

  /** Modes an LEA does not pay for: a lone register, a lone index scaled
      by 2, a register plus an index with nothing else. */
  lemma LeaRejectsCheapModes(r: Val, i: Val)
    ensures LeaScore(EmptyMode.(base := RegBase(r))) <= 2
    ensures LeaScore(EmptyMode.(index := Some(i), scale := S2)) <= 2
    ensures LeaScore(EmptyMode.(base := RegBase(r), index := Some(i))) <= 2
    ensures LeaScore(EmptyMode.(base := RegBase(r), index := Some(i), disp := 4)) > 2
  {
  }

  /** The score under either policy. */
  function Score(p: Policy, am: AddressMode): nat {
    if p == AsWritten then LeaScoreAsWritten(am) else LeaScore(am)
  }

  /** SelectLEAAddr: the operands of the maximal mode when its score is
      above 2, so that an LEA is cheaper than the adds it replaces. */
  function SelectLeaAddr(p: Policy, g: Graph, sel: set<nat>, v: Val): (r: Option<MemOperands>)
    requires WellFormed(g) && v.node < |g|
    ensures r.Some? <==> Match(p, g, sel, v, EmptyMode).Some? && Score(p, Match(p, g, sel, v, EmptyMode).value) > 2
    ensures r.Some? ==> r == SelectAddr(p, g, sel, v)
  {
    var m := Match(p, g, sel, v, EmptyMode);
    if m.Some? && Score(p, m.value) > 2 then Some(AddressOperands(m.value)) else None
  }
}

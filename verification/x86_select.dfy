/** The hand-written cases of the X86 selector's Select, the per-function
    memo of the PIC base register, and the inline-assembly memory operand.
    Every node the custom cases do not take is handed to the generated
    pattern matcher, which is not part of this model. */
module X86Select {
  import opened Wrappers
  import opened X86Dag
  import opened X86Address
  import opened X86SelectAddr
  import opened X86AddressSoundness
  import opened X86Fold
  import opened X86MulDiv

  // ---------------------------------------------------------------------
  // The PIC base register
  // ---------------------------------------------------------------------

  /** The two instructions that materialise the base register, inserted at
      the top of the function's entry block. */
  datatype EntryInst = MovePCtoStack | Pop32(reg: nat)

  /** What the selector keeps per function: the base register once created,
      the next free virtual register, and the code at the top of the entry
      block. */
  datatype FunctionState = FunctionState(baseReg: Option<nat>, nextReg: nat, entry: seq<EntryInst>)

  function CountPops(code: seq<EntryInst>): nat {
    if |code| == 0 then 0 else (if code[0].Pop32? then 1 else 0) + CountPops(code[1..])
  }

  /** The entry code holds one materialisation exactly when the register
      exists, and it loads that register; virtual registers below nextReg
      are taken. */
  predicate BaseRegInvariant(st: FunctionState) {
    && (st.baseReg.None? ==> CountPops(st.entry) == 0)
    && (st.baseReg.Some? ==>
          && CountPops(st.entry) == 1
          && |st.entry| >= 2 && st.entry[..2] == [MovePCtoStack, Pop32(st.baseReg.value)]
          && st.baseReg.value < st.nextReg)
  }

  /** runOnFunction: a new function starts without a base register. */
  function StartFunction(nextReg: nat, entry: seq<EntryInst>): (st: FunctionState)
    requires CountPops(entry) == 0
    ensures st.baseReg.None? && BaseRegInvariant(st)
  {
    FunctionState(None, nextReg, entry)
  }

  /** getGlobalBaseReg: the function's base register, created (and its
      materialisation inserted at the top of the entry block) on first
      use. */
  function GetGlobalBaseReg(st: FunctionState): (r: (nat, FunctionState))
    requires BaseRegInvariant(st)
    ensures BaseRegInvariant(r.1) && r.1.baseReg == Some(r.0)
    ensures st.baseReg.Some? ==> r == (st.baseReg.value, st)
    ensures st.baseReg.None? ==> r.0 == st.nextReg && r.1.entry == [MovePCtoStack, Pop32(r.0)] + st.entry
  {
    if st.baseReg.Some? then (st.baseReg.value, st)
    else
      var reg := st.nextReg;
      var entry := [MovePCtoStack, Pop32(reg)] + st.entry;
      assert CountPops(entry) == 1 + CountPops(st.entry) by {
        assert entry[1..] == [Pop32(reg)] + st.entry;
        assert entry[1..][1..] == st.entry;
      }
      (reg, FunctionState(Some(reg), reg + 1, entry))
  }

  /** Asking twice gives the same register and inserts the code once. */
  lemma GlobalBaseRegIdempotent(st: FunctionState)
    requires BaseRegInvariant(st)
    ensures var (r1, st1) := GetGlobalBaseReg(st);
      var (r2, st2) := GetGlobalBaseReg(st1);
      r2 == r1 && st2 == st1 && CountPops(st2.entry) == 1
  {
  }

  // ---------------------------------------------------------------------
  // Select's custom cases
  // ---------------------------------------------------------------------

  /** What Select does with a node. */
  datatype Selection =
    | AlreadySelected
      /** The node becomes the base register. */
    | BaseRegister(reg: nat)
      /** The node becomes a MOV32ri of a symbol plus offset. */
    | MoveImmediate(imm: DispOperand)
      /** A multiply-high or divide sequence through the fixed registers. */
    | Fixed(fs: FixedSequence)
      /** A truncation to 8 bits: a move into a register class with an
          8-bit sub-register, then the sub-register of the given width. */
    | TruncateToByte(from: Width)
      /** A type the custom case does not handle; the source asserts. */
    | Unsupported
      /** Handed to the generated matcher. */
    | Generated

  /** The ADD case: an add of a wrapped global or constant-pool entry and
      a constant becomes a move of the symbol with the constant added to its
      offset. */
  function AddImmediate(g: Graph, n: nat): (r: Option<DispOperand>)
    requires WellFormed(g) && n < |g| && g[n].op == Add
    ensures r.Some? ==> g[n].vt == IntType(32)
    ensures r.Some? ==> !r.value.ImmDisp?
  {
    var n0 := g[n].operands[0];
    var n1 := g[n].operands[1];
    if g[n].vt == IntType(32) && g[n0.node].op.Wrapper? && g[n1.node].op.Constant? then
      var c := g[n1.node].op.value;
      match g[n0.node].op.sym
      case GlobalSym(gv, off) => Some(GlobalDisp(gv, off + c))
      case PoolSym(cp, align, off) => Some(PoolDisp(cp, align, off + c))
      case ExternalSym => None
    else None
  }

  /** The immediate the move loads is the value of the add it replaces. */
  lemma AddImmediateSound(g: Graph, env: Env, n: nat)
    requires WellFormed(g) && n < |g| && g[n].op == Add && AddImmediate(g, n).Some?
    ensures DispValue(env, AddImmediate(g, n).value) == Value(g, env, Val(n, 0))
  {
    var n0 := g[n].operands[0];
    var n1 := g[n].operands[1];
    assert n0.res == 0 && n1.res == 0;
    assert TwoOperands(g, n);
  }

  /** The explicit operand of a multiply or divide: a folded load's memory
      operand, or the value in a register. */
  function SourceOf(folded: Option<MemOperands>, v: Val): (src: Source)
    ensures folded.Some? ==> src == MemSource(folded.value, v)
    ensures folded.None? ==> src == RegSource(v)
  {
    if folded.Some? then MemSource(folded.value, v) else RegSource(v)
  }

  /** MULHU/MULHS: the second operand's load is folded if it can be, else
      the first's, the operands then trading places since the operation
      commutes.  `first` goes to the low register, `src` is the explicit
      operand. */
  method SelectMulHigh(fastISel: bool, pol: Policy, g: Graph, sel: set<nat>, n: nat, w: Width)
    returns (fs: FixedSequence, first: Val, src: Source)
    requires WellFormed(g) && n < |g| && g[n].op in {MulHU, MulHS}
    ensures fs == MulHighSequence(g[n].op == MulHS, w, first, src, fs.folded)
    ensures var ops := g[n].operands;
      && (fs.folded.None? ==> first == ops[0] && src == RegSource(ops[1]))
      && (fs.folded == Some(ops[1]) ==>
            first == ops[0] && src.MemSource? && src.load == ops[1] && Foldable(fastISel, g, n, ops[1]))
      && (fs.folded.Some? && fs.folded != Some(ops[1]) ==>
            && fs.folded == Some(ops[0]) && first == ops[1] && src.MemSource? && src.load == ops[0]
            && Foldable(fastISel, g, n, ops[0]))
      && (Foldable(fastISel, g, n, ops[1]) && SelectAddr(pol, g, sel, g[ops[1].node].operands[1]).Some? ==>
            fs.folded == Some(ops[1]))
      && (!(Foldable(fastISel, g, n, ops[1]) && SelectAddr(pol, g, sel, g[ops[1].node].operands[1]).Some?)
          && Foldable(fastISel, g, n, ops[0]) && SelectAddr(pol, g, sel, g[ops[0].node].operands[1]).Some? ==>
            fs.folded == Some(ops[0]))
    ensures src.MemSource? ==> Some(src.ops) == SelectAddr(pol, g, sel, g[src.load.node].operands[1])
    ensures src.MemSource? ==> fs.folded == Some(src.load)
  {
    var n0 := g[n].operands[0];
    var n1 := g[n].operands[1];
    var signed := g[n].op == MulHS;
    var folded := TryFoldLoad(fastISel, pol, g, sel, n, n1);
    if folded.Some? {
      first, src := n0, MemSource(folded.value, n1);
      fs := MulHighSequence(signed, w, first, src, Some(n1));
      return;
    }
    folded := TryFoldLoad(fastISel, pol, g, sel, n, n0);
    if folded.Some? {
      first, src := n1, MemSource(folded.value, n0);
      fs := MulHighSequence(signed, w, first, src, Some(n0));
      return;
    }
    first, src := n0, RegSource(n1);
    fs := MulHighSequence(signed, w, first, src, None);
  }

  /** SDIV/UDIV/SREM/UREM: only the divisor's load may be folded; `src` is
      the explicit operand. */
  method SelectDivRem(fastISel: bool, pol: Policy, g: Graph, sel: set<nat>, n: nat, w: Width)
    returns (fs: FixedSequence, src: Source)
    requires WellFormed(g) && n < |g| && g[n].op in {SDiv, UDiv, SRem, URem}
    ensures var ops := g[n].operands;
      var op := g[n].op;
      && fs == DivRemSequence(op in {SDiv, SRem}, op in {SDiv, UDiv}, w, ops[0], src, fs.folded)
      && (fs.folded.None? ==> src == RegSource(ops[1]))
      && (fs.folded.Some? ==>
            fs.folded == Some(ops[1]) && src.MemSource? && src.load == ops[1] && Foldable(fastISel, g, n, ops[1]))
      && (Foldable(fastISel, g, n, ops[1]) && SelectAddr(pol, g, sel, g[ops[1].node].operands[1]).Some? ==>
            fs.folded.Some?)
    ensures src.MemSource? ==> Some(src.ops) == SelectAddr(pol, g, sel, g[src.load.node].operands[1])
    ensures src.MemSource? ==> fs.folded == Some(src.load)
  {
    var n0 := g[n].operands[0];
    var n1 := g[n].operands[1];
    var op := g[n].op;
    var folded := TryFoldLoad(fastISel, pol, g, sel, n, n1);
    src := if folded.Some? then MemSource(folded.value, n1) else RegSource(n1);
    fs := DivRemSequence(op in {SDiv, SRem}, op in {SDiv, UDiv}, w, n0, src,
                         if folded.Some? then Some(n1) else None);
  }

  /** The TRUNCATE case: only truncations to 8 bits, of a 16- or 32-bit
      value. */
  function TruncateCase(g: Graph, n: nat): (r: Selection)
    requires WellFormed(g) && n < |g| && g[n].op == Truncate
    ensures r.TruncateToByte? <==> g[n].vt == IntType(8) && g[g[n].operands[0].node].vt in {IntType(16), IntType(32)}
    ensures r.TruncateToByte? ==> g[g[n].operands[0].node].vt == IntType(Bits(r.from))
    ensures r.Generated? <==> g[n].vt != IntType(8)
  {
    if g[n].vt != IntType(8) then Generated
    else
      match g[g[n].operands[0].node].vt
      case IntType(16) => TruncateToByte(W16)
      case IntType(32) => TruncateToByte(W32)
      case _ => Unsupported
  }

  /** Every memory operand of the sequence is the folded load, addressed
      by the four operands SelectAddr gives for the load's pointer. */
  predicate MemoryOperandsSelected(pol: Policy, g: Graph, sel: set<nat>, fs: FixedSequence)
    requires WellFormed(g)
  {
    forall i :: 0 <= i < |fs.steps| && fs.steps[i].Arith? && fs.steps[i].src.MemSource? ==>
      var l := fs.steps[i].src.load;
      && fs.folded == Some(l) && l.node < |g| && |g[l.node].operands| >= 2
      && g[l.node].operands[1].node < |g|
      && Some(fs.steps[i].src.ops) == SelectAddr(pol, g, sel, g[l.node].operands[1])
  }

  /** Select's dispatch over the custom cases, threading the function's
      base-register state. */
  method Select(fastISel: bool, pol: Policy, g: Graph, sel: set<nat>, st: FunctionState, n: nat)
    returns (r: Selection, st': FunctionState)
    requires WellFormed(g) && n < |g| && BaseRegInvariant(st)
    ensures BaseRegInvariant(st')
    ensures r.AlreadySelected? <==> g[n].op == TargetOp
    ensures r.BaseRegister? <==> g[n].op == GlobalBaseReg
    ensures r.BaseRegister? ==> (r.reg, st') == GetGlobalBaseReg(st)
    ensures !r.BaseRegister? ==> st' == st
    ensures r.MoveImmediate? <==> g[n].op == Add && AddImmediate(g, n).Some?
    ensures r.MoveImmediate? ==> Some(r.imm) == AddImmediate(g, n)
    ensures r.Fixed? <==> g[n].op in {MulHU, MulHS, SDiv, UDiv, SRem, URem} && WidthOf(g[n].vt).Some?
    ensures r.Fixed? ==> r.fs.w == WidthOf(g[n].vt).value
    ensures r.Fixed? && g[n].op in {MulHU, MulHS} ==> r.fs.result == High
    ensures r.Fixed? && g[n].op in {SDiv, UDiv} ==> r.fs.result == Low
    ensures r.Fixed? && g[n].op in {SRem, URem} ==> r.fs.result == High
    ensures r.Fixed? && r.fs.folded.None? ==> ComputesOp(r.fs, g[n].op, g[n].operands[0], g[n].operands[1])
    ensures r.Fixed? && pol == Corrected && LoadOperandsAreValues(g, n) ==>
      ComputesInMemory(g, r.fs, g[n].op, g[n].operands[0], g[n].operands[1])
    ensures r.Fixed? && r.fs.folded.Some? ==>
      r.fs.folded.value in g[n].operands[..2] && Foldable(fastISel, g, n, r.fs.folded.value)
    ensures r.Fixed? ==> MemoryOperandsSelected(pol, g, sel, r.fs)
    ensures g[n].op == Truncate ==> r == TruncateCase(g, n)
    ensures r.Unsupported? ==> g[n].op in {MulHU, MulHS, SDiv, UDiv, SRem, URem, Truncate}
  {
    st' := st;
    var op := g[n].op;
    if op == TargetOp {
      r := AlreadySelected;
    } else if op == GlobalBaseReg {
      var (reg, st1) := GetGlobalBaseReg(st);
      r, st' := BaseRegister(reg), st1;
    } else if op == Add {
      var imm := AddImmediate(g, n);
      r := if imm.Some? then MoveImmediate(imm.value) else Generated;
    } else if op in {MulHU, MulHS, SDiv, UDiv, SRem, URem} {
      var w := WidthOf(g[n].vt);
      if w.None? {
        r := Unsupported;
      } else if op in {MulHU, MulHS} {
        var fs, first, src := SelectMulHigh(fastISel, pol, g, sel, n, w.value);
        MulHighCaseComputes(pol, g, sel, n, w.value, fs, first, src);
        r := Fixed(fs);
      } else {
        var fs, src := SelectDivRem(fastISel, pol, g, sel, n, w.value);
        DivRemCaseComputes(pol, g, sel, n, w.value, fs, src);
        r := Fixed(fs);
      }
    } else if op == Truncate {
      r := TruncateCase(g, n);
    } else {
      r := Generated;
    }
  }

  // ---------------------------------------------------------------------
  // What the selected sequences compute
  // ---------------------------------------------------------------------

  /** The memory the graph's loads read: each load's value is the word
      stored at the address its pointer operand computes. */
  ghost predicate LoadsRead(g: Graph, env: Env, mem: nat -> nat) {
    forall l :: 0 <= l < |g| && g[l].op == Load && |g[l].operands| == 3 ==>
      env.leaf(l, 0) == mem(Value(g, env, g[l].operands[1]))
  }

  /** An integer operation takes a load's value (result 0), never its
      chain (result 1, of type Other). */
  predicate LoadOperandsAreValues(g: Graph, n: nat)
    requires WellFormed(g) && n < |g|
  {
    forall k :: 0 <= k < 2 && k < |g[n].operands| && g[g[n].operands[k].node].op == Load ==>
      g[n].operands[k].res == 0
  }

  /** The DAG's values, as registers hold them. */
  function Values(g: Graph, env: Env): Val -> nat {
    v => Value(g, env, v)
  }

  /** A memory read through four address operands. */
  function Reader(g: Graph, env: Env, mem: nat -> nat): MemOperands -> nat {
    ops => mem(MemValue(g, env, ops))
  }

  /** Whatever the registers held before, the sequence yields the
      operation on the two operands' values. */
  ghost predicate ComputesOn(fs: FixedSequence, op: Opcode, a: Val, b: Val, val: Val -> nat, read: MemOperands -> nat) {
    forall r: Regs :: Outcome(fs, r, val, read) == Expected(op, fs.w, val(a), val(b))
  }

  /** The sequence computes the operation whatever the values and memory. */
  ghost predicate ComputesOp(fs: FixedSequence, op: Opcode, a: Val, b: Val) {
    forall val: Val -> nat, read: MemOperands -> nat :: ComputesOn(fs, op, a, b, val, read)
  }

  /** The sequence computes the operation on the DAG's values in every
      memory its loads read. */
  ghost predicate ComputesInMemory(g: Graph, fs: FixedSequence, op: Opcode, a: Val, b: Val) {
    forall env: Env, mem: nat -> nat | LoadsRead(g, env, mem) ::
      ComputesOn(fs, op, a, b, Values(g, env), Reader(g, env, mem))
  }

  /** A load folded under the corrected address rules reads exactly the
      value the load produces: the memory operand addresses the load's
      pointer. */
  lemma FoldedReadsLoad(g: Graph, sel: set<nat>, env: Env, mem: nat -> nat, ops: MemOperands, load: Val)
    requires WellFormed(g) && load.node < |g| && g[load.node].op == Load && load.res == 0
    requires Some(ops) == SelectAddr(Corrected, g, sel, g[load.node].operands[1])
    requires LoadsRead(g, env, mem)
    ensures SourceValue(MemSource(ops, load), Values(g, env), Reader(g, env, mem)) == Value(g, env, load)
  {
    var ptr := g[load.node].operands[1];
    assert Typed(g, ptr);
    SelectAddrSound(g, sel, env, ptr);
  }

  /** The sequence SelectMulHigh builds computes MULHU/MULHS: always when
      no load is folded, and in every consistent memory when the address of
      a folded load was matched by the corrected rules. */
  lemma MulHighCaseComputes(pol: Policy, g: Graph, sel: set<nat>, n: nat, w: Width,
                            fs: FixedSequence, first: Val, src: Source)
    requires WellFormed(g) && n < |g| && g[n].op in {MulHU, MulHS}
    requires fs == MulHighSequence(g[n].op == MulHS, w, first, src, fs.folded)
    requires var ops := g[n].operands;
      || (fs.folded.None? && first == ops[0] && src == RegSource(ops[1]))
      || (fs.folded.Some? && first == ops[0] && src.MemSource? && src.load == ops[1] && g[ops[1].node].op == Load)
      || (fs.folded.Some? && first == ops[1] && src.MemSource? && src.load == ops[0] && g[ops[0].node].op == Load)
    requires src.MemSource? ==> Some(src.ops) == SelectAddr(pol, g, sel, g[src.load.node].operands[1])
    requires src.MemSource? ==> fs.folded == Some(src.load)
    ensures MemoryOperandsSelected(pol, g, sel, fs)
    ensures fs.folded.None? ==> ComputesOp(fs, g[n].op, g[n].operands[0], g[n].operands[1])
    ensures pol == Corrected && LoadOperandsAreValues(g, n) ==>
      ComputesInMemory(g, fs, g[n].op, g[n].operands[0], g[n].operands[1])
  {
    var op := g[n].op;
    var a, b := g[n].operands[0], g[n].operands[1];
    if fs.folded.None? {
      forall val: Val -> nat, read: MemOperands -> nat
        ensures ComputesOn(fs, op, a, b, val, read)
      {
        MulHighSequenceComputes(op == MulHS, w, first, src, fs.folded, a, b, val, read);
      }
    }
    if pol == Corrected && LoadOperandsAreValues(g, n) {
      forall env: Env, mem: nat -> nat | LoadsRead(g, env, mem)
        ensures ComputesOn(fs, op, a, b, Values(g, env), Reader(g, env, mem))
      {
        if src.MemSource? {
          FoldedReadsLoad(g, sel, env, mem, src.ops, src.load);
        }
        MulHighSequenceComputes(op == MulHS, w, first, src, fs.folded, a, b, Values(g, env), Reader(g, env, mem));
      }
    }
  }

  /** The sequence SelectDivRem builds computes the quotient or remainder,
      under the same conditions. */
  lemma DivRemCaseComputes(pol: Policy, g: Graph, sel: set<nat>, n: nat, w: Width, fs: FixedSequence, src: Source)
    requires WellFormed(g) && n < |g| && g[n].op in {SDiv, UDiv, SRem, URem}
    requires var ops := g[n].operands;
      var op := g[n].op;
      && fs == DivRemSequence(op in {SDiv, SRem}, op in {SDiv, UDiv}, w, ops[0], src, fs.folded)
      && (fs.folded.None? ==> src == RegSource(ops[1]))
      && (fs.folded.Some? ==> src.MemSource? && src.load == ops[1] && g[ops[1].node].op == Load)
    requires src.MemSource? ==> Some(src.ops) == SelectAddr(pol, g, sel, g[src.load.node].operands[1])
    requires src.MemSource? ==> fs.folded == Some(src.load)
    ensures MemoryOperandsSelected(pol, g, sel, fs)
    ensures fs.folded.None? ==> ComputesOp(fs, g[n].op, g[n].operands[0], g[n].operands[1])
    ensures pol == Corrected && LoadOperandsAreValues(g, n) ==>
      ComputesInMemory(g, fs, g[n].op, g[n].operands[0], g[n].operands[1])
  {
    var op := g[n].op;
    var a, b := g[n].operands[0], g[n].operands[1];
    var signed, isDiv := op in {SDiv, SRem}, op in {SDiv, UDiv};
    if fs.folded.None? {
      forall val: Val -> nat, read: MemOperands -> nat
        ensures ComputesOn(fs, op, a, b, val, read)
      {
        DivRemSequenceComputes(signed, isDiv, w, src, fs.folded, a, b, val, read);
      }
    }
    if pol == Corrected && LoadOperandsAreValues(g, n) {
      forall env: Env, mem: nat -> nat | LoadsRead(g, env, mem)
        ensures ComputesOn(fs, op, a, b, Values(g, env), Reader(g, env, mem))
      {
        if src.MemSource? {
          FoldedReadsLoad(g, sel, env, mem, src.ops, src.load);
        }
        DivRemSequenceComputes(signed, isDiv, w, src, fs.folded, a, b, Values(g, env), Reader(g, env, mem));
      }
    }
  }

  /** A multiply-high sequence on the two operands, in either order,
      computes the node's operation once its explicit operand reads the
      value it stands for. */
  lemma MulHighSequenceComputes(signed: bool, w: Width, first: Val, src: Source, folded: Option<Val>, a: Val, b: Val,
                                val: Val -> nat, read: MemOperands -> nat)
    requires (first == a && SourceValue(src, val, read) == val(b)) || (first == b && SourceValue(src, val, read) == val(a))
    ensures ComputesOn(MulHighSequence(signed, w, first, src, folded), if signed then MulHS else MulHU, a, b, val, read)
  {
    var fs := MulHighSequence(signed, w, first, src, folded);
    var op := if signed then MulHS else MulHU;
    forall r: Regs
      ensures Outcome(fs, r, val, read) == Expected(op, w, val(a), val(b))
    {
      MulHighComputes(signed, w, first, src, folded, r, val, read);
      MulHighCommutes(op, w, val(a), val(b));
    }
  }

  /** A divide sequence computes the node's operation once its divisor
      operand reads the value it stands for. */
  lemma DivRemSequenceComputes(signed: bool, isDiv: bool, w: Width, src: Source, folded: Option<Val>, a: Val, b: Val,
                               val: Val -> nat, read: MemOperands -> nat)
    requires SourceValue(src, val, read) == val(b)
    ensures ComputesOn(DivRemSequence(signed, isDiv, w, a, src, folded),
                       if signed then (if isDiv then SDiv else SRem) else (if isDiv then UDiv else URem), a, b, val, read)
  {
    var fs := DivRemSequence(signed, isDiv, w, a, src, folded);
    var op := if signed then (if isDiv then SDiv else SRem) else (if isDiv then UDiv else URem);
    forall r: Regs
      ensures Outcome(fs, r, val, read) == Expected(op, w, val(a), val(b))
    {
      if signed {
        SignedDivComputes(isDiv, w, a, src, folded, r, val, read);
      } else {
        UnsignedDivComputes(isDiv, w, a, src, folded, r, val, read);
      }
    }
  }

  lemma MulHighCommutes(op: Opcode, w: Width, a: nat, b: nat)
    requires op in {MulHU, MulHS}
    ensures Expected(op, w, a, b) == Expected(op, w, b, a)
  {
    var m := Modulus(w);
    assert MulNat(a % m, b % m) == MulNat(b % m, a % m);
    assert Signed(m, a % m) * Signed(m, b % m) == Signed(m, b % m) * Signed(m, a % m);
  }

  // ---------------------------------------------------------------------
  // Inline assembly
  // ---------------------------------------------------------------------

  /** SelectInlineAsmMemoryOperand: only the 'm' constraint is handled, by
      the four address operands SelectAddr builds; any other constraint, or
      an address the matcher cannot take, fails (None). */
  function InlineAsmMemoryOperand(pol: Policy, g: Graph, sel: set<nat>, v: Val, constraint: char): (r: Option<MemOperands>)
    requires WellFormed(g) && v.node < |g|
    ensures r.Some? <==> constraint == 'm' && Match(pol, g, sel, v, EmptyMode).Some?
    ensures r.Some? ==> r.value == AddressOperands(Match(pol, g, sel, v, EmptyMode).value)
  {
    if constraint == 'm' then SelectAddr(pol, g, sel, v) else None
  }
}

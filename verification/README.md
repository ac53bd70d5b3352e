# Four LLVM code-generation and support components, modelled in Dafny

This project models four independent parts of an early LLVM, together with
the properties their code promises.

- **X86 DAG-to-DAG instruction selector core**
  (`llvm/lib/Target/X86/X86ISelDAGToDAG.cpp`).
  - The addressing-mode matcher folds pointer arithmetic into
    base + scale·index + displacement (+ a global or constant-pool symbol).
  - The queries that turn a matched mode into memory operands: `SelectAddr`,
    `SelectLEAAddr` with its cost score, and the inline-asm `m` operand.
  - The fold-safety check (`isNonImmUse`, `CanBeFoldedBy`, `TryFoldLoad`).
  - The read-modify-write preprocessing that moves a load below a
    TokenFactor.
  - The PIC base-register memo.
  - The custom `Select` cases: ADD of a wrapped symbol and a constant,
    multiply-high, divide/remainder and truncation.
- **MIPS SE lowering decisions** (`llvm/lib/Target/Mips/MipsSEISelLowering.cpp`).
  - The constant-multiply decomposition `genConstMult`.
  - The MSA shuffle classifiers, the SHF immediate encoder, VSHF's operand
    choice and the order in which the lowerings are tried.
  - The BUILD_VECTOR lowering rules.
  - The DSP condition-code legality table.
  - The MADD/MSUB pattern match with its rewrite.
  - The HI/LO multiply-divide lowering.
- **`DenseMap`** (`llvm/include/llvm/ADT/DenseMap.h`).
  - An open-addressing hash table with a power-of-two bucket count.
  - Probing adds 1, 2, 3, … to the hash, and erased keys leave tombstones.
  - The table grows when the load is high and shrinks on `clear`.
  - The iterator skips empty buckets and tombstones.
- **The time-trace profiler** (`llvm/lib/Support/TimeProfiler.cpp`,
  `llvm/include/llvm/Support/TimeProfiler.h`).
  - The JSON string escaper.
  - The Begin/End section stack, with its 500 µs filter and per-name totals
    taken only at the topmost level.
  - The ordering and accounting of the trace writer.
  - The process-wide instance and the RAII scope.

## How the model is built

A selection DAG is an immutable sequence of nodes (`X86Dag.Graph`). A node's
index is its id, and each node lists its operands as (node, result) pairs.
The selector of this LLVM numbers nodes from the root in topological order,
so a user has a smaller id than each of its operands. `findNonImmUse` relies
on that when it stops at nodes whose id exceeds the definition's. The model
therefore requires every operand's index to be larger than its user's.
"Already selected" is the input set `sel`.

`MatchAddress` returns `true` for failure and restores the mode whenever a
rule fails. The model returns `Option<AddressMode>`, where `None` is failure
and the caller's mode is left untouched. Addresses are evaluated in exact
naturals (`X86Dag.Value`, `X86Dag.AddrValue`), and the displacement does
not wrap at 32 bits as the source's `unsigned Disp` does (see "## Left out").

`genConstMult` returns an expression tree over the multiplicand. `Eval`
gives the tree its w-bit wrap-around meaning.

The DenseMap is a sequence of buckets with explicit entry and tombstone
counts. The key traits are a parameter (`KeyInfo`): the empty key, the
tombstone key and an arbitrary hash function. Functional correctness is
stated against `Get`, the value of the one bucket that holds a key.

Time is an integer number of microseconds passed in by the caller. The
profiler's global instance pointer is explicit state (`TimeProfiler.Global`).

## Model

| member | source | states |
|---|---|---|
| X86Dag.ShiftLeftIsMul | llvm/lib/Target/X86/X86ISelDAGToDAG.cpp:520-529 | A shift left by n multiplies by 2^n, which is what lets a shift by 1, 2 or 3 become an index scale |
| X86Address.Default | llvm/lib/Target/X86/X86ISelDAGToDAG.cpp:616-632 | The fall-back rule fails exactly when both the base register and the index are already taken |
| X86Address.Match | llvm/lib/Target/X86/X86ISelDAGToDAG.cpp:477-633 | MatchAddress never changes a slot that is already filled: a taken base, index (with its scale), global or pool symbol comes back as it was; it fails only when base and index are both taken; under the corrected rules a mode with at most one symbol keeps at most one |
| X86Address.MatchAdd | llvm/lib/Target/X86/X86ISelDAGToDAG.cpp:576-589 | ADD tries (op0, op1) and then (op1, op0) from the saved mode, and falls back to the default rule with the mode unchanged; filled slots are never overwritten |
| X86Address.MatchOr | llvm/lib/Target/X86/X86ISelDAGToDAG.cpp:591-613 | OR with a constant tries each operand order from the saved mode; a failed attempt restores the mode exactly; filled slots are never overwritten |
| X86Address.KnownMultiple | llvm/lib/Target/X86/X86ISelDAGToDAG.cpp:591-613 | The corrected OR rule's evidence that the other operand's low bits are zero: a power of two (1, 2, 4 or 8) that divides it |
| X86AddressSoundness.DefaultSound | llvm/lib/Target/X86/X86ISelDAGToDAG.cpp:616-632 | Putting a value in the base, or in the index with scale 1, adds exactly that value to the address |
| X86AddressSoundness.WrapperSound | llvm/lib/Target/X86/X86ISelDAGToDAG.cpp:488-508 | Under the corrected rule, taking a wrapped global or pool entry (with its offset) adds exactly the symbol's address to the mode's address |
| X86AddressSoundness.ShlValue | llvm/lib/Target/X86/X86ISelDAGToDAG.cpp:520-529 | A shift by 1, 2 or 3 has the value of its operand times the scale 2, 4 or 8 the rule records |
| X86AddressSoundness.MulValue | llvm/lib/Target/X86/X86ISelDAGToDAG.cpp:545-556 | A multiply by 3, 5 or 9 equals X + X·(k−1), the base-plus-scaled-index form the rule builds |
| X86AddressSoundness.ShlFoldSound | llvm/lib/Target/X86/X86ISelDAGToDAG.cpp:530-538 | Folding a single-use add of a constant c under a shift by k into index = the add's operand and Disp += c·2^k keeps the address equal to the shifted value |
| X86AddressSoundness.ShlSound | llvm/lib/Target/X86/X86ISelDAGToDAG.cpp:520-543 | Whenever the SHL rule succeeds, the address grows by exactly the value of the shift |
| X86AddressSoundness.MulFoldSound | llvm/lib/Target/X86/X86ISelDAGToDAG.cpp:557-569 | Folding a single-use add of a constant c under a multiply by k into base = index = the add's operand and Disp += c·k keeps the address equal to the product |
| X86AddressSoundness.MulSound | llvm/lib/Target/X86/X86ISelDAGToDAG.cpp:545-574 | Whenever the MUL rule succeeds, the address grows by exactly the value of the multiplication |
| X86AddressSoundness.AddSound | llvm/lib/Target/X86/X86ISelDAGToDAG.cpp:576-589 | Whenever the ADD rule succeeds in either operand order, the address grows by exactly the value of the sum |
| X86AddressSoundness.KnownMultipleSound | llvm/lib/Target/X86/X86ISelDAGToDAG.cpp:591-613 | When c is below a power of two that divides x, `c | x` equals `x + c` in both operand orders, which is why an OR may stand for an ADD |
| X86AddressSoundness.OrFoldSound | llvm/lib/Target/X86/X86ISelDAGToDAG.cpp:596-609 | Under the corrected condition, setting Disp to the OR's constant after the other operand matched makes the address equal the OR's value |
| X86AddressSoundness.OrSound | llvm/lib/Target/X86/X86ISelDAGToDAG.cpp:591-613 | Whenever the corrected OR rule succeeds, the address grows by exactly the value of the OR |
| X86AddressSoundness.MatchSound | llvm/lib/Target/X86/X86ISelDAGToDAG.cpp:477-633 | Soundness of the matcher with the corrected rules: whenever MatchAddress succeeds, the matched mode's address is the starting mode's address plus the node's value |
| X86SelectAddr.AddressOperands | llvm/lib/Target/X86/X86ISelDAGToDAG.cpp:155-166 | getAddressOperands with the register-0 fill: an empty base or index becomes register 0; the displacement is the global if there is one, else the pool entry, else the plain immediate, carrying Disp as offset |
| X86SelectAddr.SelectAddr | llvm/lib/Target/X86/X86ISelDAGToDAG.cpp:638-654 | SelectAddr succeeds exactly when MatchAddress does, and its operands are the matched mode's, with register 0 for missing registers |
| X86SelectAddr.OperandsDenoteMode | llvm/lib/Target/X86/X86ISelDAGToDAG.cpp:155-166 | With at most one symbol in the mode, the four operands address exactly what the mode does: register 0 adds nothing |
| X86SelectAddr.SelectAddrSound | llvm/lib/Target/X86/X86ISelDAGToDAG.cpp:638-654 | With the corrected rules, the memory operand SelectAddr produces addresses exactly the value of the node it replaces |
| X86SelectAddr.LeaScoresDiffer | llvm/lib/Target/X86/X86ISelDAGToDAG.cpp:664-688 | The score as written and the intended score differ exactly on modes with a displacement and no base or index register, and there the score as written is one higher |
| X86SelectAddr.LeaScoreCounterexample | llvm/lib/Target/X86/X86ISelDAGToDAG.cpp:664-688 | A global plus displacement with no register scores 3 as written (an LEA is emitted) but 2 as intended |
| X86SelectAddr.LeaRejectsCheapModes | llvm/lib/Target/X86/X86ISelDAGToDAG.cpp:664-690 | A lone register base, `(,%reg,2)` and base + index score at most 2, so they are not turned into an LEA; base + index + displacement scores above 2 |
| X86SelectAddr.SelectLeaAddr | llvm/lib/Target/X86/X86ISelDAGToDAG.cpp:658-701 | SelectLEAAddr succeeds exactly when MatchAddress succeeds and the mode scores above 2, and then yields SelectAddr's operands |
| X86Fold.ReachesForward | llvm/lib/Target/X86/X86ISelDAGToDAG.cpp:196-200 | Every operand path leads to larger ids, so the search may stop at any node whose id is above the definition's |
| X86Fold.ClosedMeansNoCycle | llvm/lib/Target/X86/X86ISelDAGToDAG.cpp:196-225 | A finished search that never met the definition proves no operand other than the definition reaches it |
| X86Fold.FoundMeansCycle | llvm/lib/Target/X86/X86ISelDAGToDAG.cpp:205-210 | Meeting the definition among the operands of a node the search reached proves a non-immediate use |
| X86Fold.PushRoots | llvm/lib/Target/X86/X86ISelDAGToDAG.cpp:214-225 | The search starts from exactly the user's operands that are not the definition |
| X86Fold.IsNonImmUse | llvm/lib/Target/X86/X86ISelDAGToDAG.cpp:196-225 | isNonImmUse(U, D) is true exactly when some operand of U other than D reaches D |
| X86Fold.CanBeFoldedBy | llvm/lib/Target/X86/X86ISelDAGToDAG.cpp:228-242 | A node can be folded into its user exactly when fast selection is off and no non-immediate use exists |
| X86Fold.TryFoldLoad | llvm/lib/Target/X86/X86ISelDAGToDAG.cpp:703-712 | A load is folded only when it is a single-use load, its only user is P and it can be folded; then, and whenever those hold, the result is SelectAddr of the load's address |
| X86Rmw.LoadOperand | llvm/lib/Target/X86/X86ISelDAGToDAG.cpp:318-358 | The candidate load is the stored value's first operand, or (for a commuting operator only) its second operand when the first is not a load; non-commuting operators look only at the first |
| X86Rmw.RmwLoad | llvm/lib/Target/X86/X86ISelDAGToDAG.cpp:303-362 | A load is moved only if the store is chained on a TokenFactor, the stored value is non-FP, non-vector and single-use, and the load is single-use, uses the store's address, has the value's type and is an operand of the TokenFactor |
| X86Rmw.RmwLoadComplete | llvm/lib/Target/X86/X86ISelDAGToDAG.cpp:303-362 | Conversely, every store meeting those conditions is rewritten |
| X86Rmw.MoveBelowTokenFactor | llvm/lib/Target/X86/X86ISelDAGToDAG.cpp:247-259 | Only the TokenFactor, the load and the store change; the load is chained on the TokenFactor and the store on the load's chain result; opcodes and types are untouched |
| X86Rmw.MoveKeepsShape | llvm/lib/Target/X86/X86ISelDAGToDAG.cpp:247-259 | The rewrite keeps every node's operand count and every operand inside the graph |
| X86Rmw.MoveMakesRmw | llvm/lib/Target/X86/X86ISelDAGToDAG.cpp:247-259 | After the move the store's chain is the load's chain result, the load's chain is the TokenFactor, the load still reads the store's address, the TokenFactor now holds the load's old chain, and its other operands are unchanged |
| X86Rmw.Step | llvm/lib/Target/X86/X86ISelDAGToDAG.cpp:303-366 | Processing one node keeps the graph well-shaped and never changes an opcode or type |
| X86Rmw.StepRewritesStore | llvm/lib/Target/X86/X86ISelDAGToDAG.cpp:360-363 | A step on a store that is a candidate chains that store on its load's chain result, keeping its other operands; a step on any other node leaves the graph unchanged |
| X86Rmw.StepKeepsOtherStore | llvm/lib/Target/X86/X86ISelDAGToDAG.cpp:247-259 | A step never changes a store other than its own |
| X86Rmw.ProgressStep | llvm/lib/Target/X86/X86ISelDAGToDAG.cpp:300-366 | One more node processed keeps the pass's state: stores not yet reached are untouched and stores already passed stay rewritten as their own step left them |
| X86Rmw.Preprocess | llvm/lib/Target/X86/X86ISelDAGToDAG.cpp:300-368 | With fast selection the graph is left alone; otherwise the result is the graph after every node's step in order, only stores, loads and TokenFactors change, no opcode or type changes, and each store ends up chained on its load's chain result exactly when it is a candidate in the graph as the pass reaches it, and is otherwise left as it was |
| X86MulDiv.WidthOf | llvm/lib/Target/X86/X86ISelDAGToDAG.cpp:896-930 | Only 8-, 16- and 32-bit integers have a fixed-register sequence; every other type hits the source's "Unsupported VT" assertion |
| X86MulDiv.RegisterTablesAgree | llvm/lib/Target/X86/X86ISelDAGToDAG.cpp:823-829 | AL/AH, AX/DX and EAX/EDX are distinct pairs of the operation's width; CBW/CWD/CDQ read the low register and fill the high one; MOV8r0/MOV16r0/MOV32r0 clear a full high register |
| X86MulDiv.MulHighComputes | llvm/lib/Target/X86/X86ISelDAGToDAG.cpp:806-888 | Copy to the low register, multiply, read the high register: the sequence computes MULHU/MULHS of its operands, from any prior register contents |
| X86MulDiv.UnsignedDivComputes | llvm/lib/Target/X86/X86ISelDAGToDAG.cpp:890-994 | Copy to the low register, clear the high one, divide, read the low (quotient) or high (remainder) register: this computes UDIV/UREM, and faults exactly on division by zero |
| X86MulDiv.SignedDivComputes | llvm/lib/Target/X86/X86ISelDAGToDAG.cpp:890-994 | With sign extension instead of clearing, the sequence computes SDIV/SREM truncating toward zero, and faults exactly on division by zero and on MIN / −1 |
| X86MulDiv.SignedDivideExtended | llvm/lib/Target/X86/X86ISelDAGToDAG.cpp:951-954 | IDIV on the sign-extended double register faults exactly when the divisor is zero or the quotient overflows; otherwise it leaves the truncated quotient in the low register and the remainder in the high one |
| X86MulDiv.SignExtendedPair | llvm/lib/Target/X86/X86ISelDAGToDAG.cpp:951-954 | The double-width register CBW/CWD/CDQ build holds the same signed value as the low register alone |
| X86MulDiv.QuotientFits | llvm/lib/Target/X86/X86ISelDAGToDAG.cpp:890-994 | A truncated quotient of w-bit signed values fits, except exactly for MIN / −1 |
| X86Select.StartFunction | llvm/lib/Target/X86/X86ISelDAGToDAG.cpp:112-116 | A function starts with no PIC base register and no base-register code in its entry block |
| X86Select.GetGlobalBaseReg | llvm/lib/Target/X86/X86ISelDAGToDAG.cpp:723-736 | The first request creates a fresh register and prepends `MovePCtoStack; POP32r reg` to the entry block; later requests return the same register and change nothing |
| X86Select.GlobalBaseRegIdempotent | llvm/lib/Target/X86/X86ISelDAGToDAG.cpp:723-736 | Asking twice gives the same register and the same state, with exactly one POP32r in the entry block |
| X86Select.AddImmediate | llvm/lib/Target/X86/X86ISelDAGToDAG.cpp:775-804 | ADD of a wrapped global or pool entry and a constant becomes MOV32ri of the symbol with the offsets added, only for i32 |
| X86Select.AddImmediateSound | llvm/lib/Target/X86/X86ISelDAGToDAG.cpp:775-804 | The immediate MOV32ri loads is the value of the ADD it replaces |
| X86Select.SelectMulHigh | llvm/lib/Target/X86/X86ISelDAGToDAG.cpp:831-873 | The second operand's load is folded whenever TryFoldLoad allows it; otherwise the first's is, with the operands swapped, whenever TryFoldLoad allows that; an operand is folded only when it is foldable, at SelectAddr's operands; the sequence is the multiply-high sequence on the chosen operands |
| X86Select.SelectDivRem | llvm/lib/Target/X86/X86ISelDAGToDAG.cpp:932-977 | Only the divisor's load may be folded, and it is whenever TryFoldLoad allows; the sequence is the sign-extend or clear-high divide sequence of the operation |
| X86Select.MulHighCommutes | llvm/lib/Target/X86/X86ISelDAGToDAG.cpp:837-844 | MULHU and MULHS are symmetric in their operands, so swapping them to fold the first operand's load is sound |
| X86Select.MulHighSequenceComputes | llvm/lib/Target/X86/X86ISelDAGToDAG.cpp:831-875 | A multiply-high sequence whose source operand (a register, or memory read at the folded address) holds the other operand's value computes the node's operation, in either operand order |
| X86Select.DivRemSequenceComputes | llvm/lib/Target/X86/X86ISelDAGToDAG.cpp:932-980 | A divide sequence whose source operand holds the divisor's value computes the node's quotient or remainder, signed or unsigned |
| X86Select.FoldedReadsLoad | llvm/lib/Target/X86/X86ISelDAGToDAG.cpp:863-872 | When the corrected address rules fold a load, reading memory at the address the four operands form gives the load's value, in every memory the loads read consistently |
| X86Select.TruncateCase | llvm/lib/Target/X86/X86ISelDAGToDAG.cpp:996-1030 | TRUNCATE to i8 from i16 or i32 becomes the copy-and-truncate pair for the source width; other targets are left to the generated patterns |
| X86Select.Select | llvm/lib/Target/X86/X86ISelDAGToDAG.cpp:745-1047 | Target nodes are already selected; GlobalBaseReg yields the memoised register; the custom cases fire exactly under their conditions; a sequence without a folded load computes its node's operation (with the result register the source copies from: low for division, high for remainder and multiply-high) for all operand values; under the corrected address rules a sequence with a folded load computes it in every memory the loads read consistently; a folded operand was foldable, and every memory operand of the sequence is that load at the four operands SelectAddr gives for its pointer |
| X86Select.InlineAsmMemoryOperand | llvm/lib/Target/X86/X86ISelDAGToDAG.cpp:1049-1072 | Only the `m` constraint is handled, and it succeeds exactly when SelectAddr does, with SelectAddr's four operands |
| X86AddressFindings.OrRuleCounterexample | llvm/lib/Target/X86/X86ISelDAGToDAG.cpp:591-613 | On or(mul(X, 9), 1) with X = 1, the OR rule as written yields a memory operand addressing 10 for a value of 9 |
| X86AddressFindings.OrRuleCorrected | llvm/lib/Target/X86/X86ISelDAGToDAG.cpp:591-613 | On the same DAG the corrected OR rule falls back to a plain register base |
| X86AddressFindings.WrapperRuleCounterexample | llvm/lib/Target/X86/X86ISelDAGToDAG.cpp:488-508 | On add(global, pool entry), the Wrapper rule as written records both symbols and the operands keep only the global: address 16 for a value of 48 |
| X86AddressFindings.WrapperRuleCorrected | llvm/lib/Target/X86/X86ISelDAGToDAG.cpp:488-508 | On the same DAG the corrected Wrapper rule yields operands addressing 48 |
| MipsConstMult.GenConstMultCorrect | llvm/lib/Target/Mips/MipsSEISelLowering.cpp:499-535 | For every multiplicand X and constant C, the tree genConstMult builds evaluates to X·(C mod 2^w) mod 2^w; termination shows every recursive call is on a simpler constant |
| MipsConstMult.GenConstMultLeaves | llvm/lib/Target/Mips/MipsSEISelLowering.cpp:504-515 | After masking to w bits, C = 0 gives the constant 0, C = 1 gives X, and a power of two gives one SHL by log2 C; nothing else gives a leaf |
| MipsConstMult.SevenIsEightMinusOne | llvm/lib/Target/Mips/MipsSEISelLowering.cpp:530-534 | X·7 on an 8-bit type becomes (X << 3) − X |
| MipsShuffle.ScanLane | llvm/lib/Target/Mips/MipsSEISelLowering.cpp:1811-1833 | The inner loop for one SHF lane succeeds exactly when every defined entry of the lane lies in its own 4-element block at one common relative index, which it returns (−1 when the lane has no defined entry) |
| MipsShuffle.LowerShf | llvm/lib/Target/Mips/MipsSEISelLowering.cpp:1803-1849 | SHF applies exactly to masks of at least four entries of the form ⟨a, b, c, d, a+4, b+4, …⟩ with −1 matching anything; the immediate holds lane i in bits 2i..2i+1, undefined lanes as 0, and reproduces every defined entry |
| MipsShuffle.ShfFormLanes | llvm/lib/Target/Mips/MipsSEISelLowering.cpp:1811-1833 | A mask has the SHF form exactly when each of the four lanes is consistent on its own |
| MipsShuffle.DigitsDetermine | llvm/lib/Target/Mips/MipsSEISelLowering.cpp:1836-1845 | An 8-bit immediate is determined by its four 2-bit fields, so the encoding is unique |
| MipsShuffle.ShfExample | llvm/lib/Target/Mips/MipsSEISelLowering.cpp:1795-1802 | The mask ⟨3,2,1,0,7,6,5,4⟩ lowers to SHF with immediate 27 |
| MipsShuffle.MatchInterleave | llvm/lib/Target/Mips/MipsSEISelLowering.cpp:1861-1970 | The interleave loop accepts exactly the masks whose even positions run ws, ws+step, … and odd positions wt, wt+step, …, with −1 matching anything |
| MipsShuffle.MatchPack | llvm/lib/Target/Mips/MipsSEISelLowering.cpp:1982-2022 | The pack loop accepts exactly the masks start, start+2, start+4, …, with −1 matching anything |
| MipsShuffle.LowerFixed | llvm/lib/Target/Mips/MipsSEISelLowering.cpp:1861-2022 | Each of ILVEV, ILVOD, ILVL, ILVR, PCKEV and PCKOD accepts exactly the masks of its documented form and rejects all others |
| MipsShuffle.LowerVshf | llvm/lib/Target/Mips/MipsSEISelLowering.cpp:2032-2073 | VSHF gets both operands exactly when indices of both occur, the used operand twice when only one is used, and the no-operand case is the unreachable one |
| MipsShuffle.LowerVectorShuffle | llvm/lib/Target/Mips/MipsSEISelLowering.cpp:2077-2113 | Only 128-bit shuffles are lowered; SHF wins whenever it applies; otherwise the first of ILVEV, ILVOD, ILVL, ILVR, PCKEV, PCKOD that fits, and no earlier one fits; a 128-bit shuffle is VSHF exactly when neither SHF nor a fixed form fits, with the operand choice above |
| MipsShuffle.AllUndefFitsIlvev | llvm/lib/Target/Mips/MipsSEISelLowering.cpp:2062-2070 | A mask that uses neither operand is all −1 and is taken by ILVEV first, so VSHF's unreachable case is indeed never reached |
| MipsLowering.SplatConstant | llvm/lib/Target/Mips/MipsSEISelLowering.cpp:1751 | The splat value sign-extended to 32 bits is a 32-bit constant |
| MipsLowering.ViaLanes | llvm/lib/Target/Mips/MipsSEISelLowering.cpp:1732-1747 | The fall-back vector v16i8, v8i16 or v4i32 has 128 bits |
| MipsLowering.SplatConstantRoundTrip | llvm/lib/Target/Mips/MipsSEISelLowering.cpp:1749-1759 | Each lane of the fall-back vector, cut back to the splat width, is the splat value |
| MipsLowering.LowerBuildVector | llvm/lib/Target/Mips/MipsSEISelLowering.cpp:1706-1783 | Without MSA or for a non-128-bit type nothing is lowered; the fall-back splat only for values outside simm10, on a 128-bit vector of its width, bitcast when that differs from the result type; the insert chain only when no element is constant or undef, inserting element i at i; the fall-back splat's constant is the splat value sign-extended to 32 bits |
| MipsLowering.BuildVectorLoweredCases | llvm/lib/Target/Mips/MipsSEISelLowering.cpp:1718-1783 | On a 128-bit type with MSA: the fall-back splat happens exactly for a constant splat of 8, 16 or 32 bits outside simm10; a 64-bit one outside simm10 is not lowered; the insert chain happens exactly when there is no usable constant splat, the elements are not one splat, and none is constant or undef |
| MipsLowering.SplatViaKeepsPattern | llvm/lib/Target/Mips/MipsSEISelLowering.cpp:1749-1759 | Whenever lowering rebuilds a splat through its 32-bit constant, that constant cut to the splat width is the splat value, so every lane holds it |
| MipsLowering.BuildVectorUnchangedCases | llvm/lib/Target/Mips/MipsSEISelLowering.cpp:1718-1763 | The node is kept as it is exactly for a constant splat of 8/16/32/64 bits that fits simm10, or for a non-constant splat |
| MipsLowering.DspCondCodeTable | llvm/lib/Target/Mips/MipsSEISelLowering.cpp:651-667 | EQ and NE are always legal, signed orderings only for v2i16, unsigned orderings only for the other type, nothing else; legality is closed under swapping and inverting, and no type allows both signed and unsigned orderings |
| MipsLowering.SetccCombine | llvm/lib/Target/Mips/MipsSEISelLowering.cpp:669-680 | SETCC becomes SETCC_DSP, with its condition, exactly on v2i16 and v4i8 with a legal condition |
| MipsLowering.SelectMadd | llvm/lib/Target/Mips/MipsSEISelLowering.cpp:279-345 | MADD fires exactly when ADDE's carry comes from an ADDC and both take result 1 and 0 of one single-use SMUL_LOHI/UMUL_LOHI; it then multiplies that node's factors into an accumulator made of the ADDC's and ADDE's other operands, and replaces only results that have uses |
| MipsLowering.SelectMsub | llvm/lib/Target/Mips/MipsSEISelLowering.cpp:355-421 | MSUB fires exactly under the mirrored pattern with SUBC/SUBE, the product being their second operands and the accumulator their first |
| MipsLowering.SelectMaddExact | llvm/lib/Target/Mips/MipsSEISelLowering.cpp:315-342 | For any 32-bit values of the fused node's factors and accumulator halves, the ADDC/ADDE pair MADD replaces computes the 64-bit sum of the accumulator and the signed or unsigned product, which is what MADD leaves in HI:LO |
| MipsLowering.SelectMsubExact | llvm/lib/Target/Mips/MipsSEISelLowering.cpp:391-418 | For any 32-bit values, the SUBC/SUBE pair MSUB replaces computes the 64-bit difference of the accumulator and the product |
| MipsLowering.MaddFusionExact | llvm/lib/Target/Mips/MipsSEISelLowering.cpp:270-277 | A 64-bit product added to HI:LO as a low add with carry and a high add with the carry is the 64-bit sum |
| MipsLowering.MsubFusionExact | llvm/lib/Target/Mips/MipsSEISelLowering.cpp:346-353 | A 64-bit product subtracted from HI:LO as a low subtract with borrow and a high subtract with the borrow is the 64-bit difference |
| MipsLowering.CombineAdde | llvm/lib/Target/Mips/MipsSEISelLowering.cpp:423-434 | The ADDE combine runs only after legalization, on MIPS32 and for i32, and then fires exactly when MADD matches |
| MipsLowering.CombineSube | llvm/lib/Target/Mips/MipsSEISelLowering.cpp:486-497 | The SUBE combine runs only after legalization, on MIPS32 and for i32, and then fires exactly when MSUB matches |
| MipsLowering.RewriteFused | llvm/lib/Target/Mips/MipsSEISelLowering.cpp:317-342 | The rewrite adds the InsertLOHI accumulator and the MAdd(u)/MSub(u) node, plus up to two ExtractLOHI nodes, and changes no existing opcode |
| MipsLowering.MaddLeavesCarryChainDead | llvm/lib/Target/Mips/MipsSEISelLowering.cpp:330-342 | After MADD's rewrite neither the ADDC nor the ADDE result has a use left |
| MipsLowering.MsubLeavesCarryChainDead | llvm/lib/Target/Mips/MipsSEISelLowering.cpp:406-418 | After MSUB's rewrite neither the SUBC nor the SUBE result has a use left |
| MipsLowering.NewNodesKeepUses | llvm/lib/Target/Mips/MipsSEISelLowering.cpp:318-328 | The new accumulator and multiply-accumulate nodes give no use to a value that had none |
| MipsLowering.LowerMulDiv | llvm/lib/Target/Mips/MipsSEISelLowering.cpp:252-259 | Each multiply or divide node maps to one HI/LO unit operation and reads back one or two halves |
| MipsLowering.ReadBack | llvm/lib/Target/Mips/MipsSEISelLowering.cpp:928-949 | Reading back yields exactly one result per requested half |
| MipsLowering.LowerMulDivCorrect | llvm/lib/Target/Mips/MipsSEISelLowering.cpp:928-949 | At 32 and at 64 bits (every operand type lines 114-131 mark Custom) and for every pair of operands of that width, the halves read back from MULT/MULTU/DIV/DIVU are the results of SMUL_LOHI, UMUL_LOHI, MULHS, MULHU, MUL, SDIVREM and UDIVREM |
| MipsLowering.CustomMulDivExact | llvm/lib/Target/Mips/MipsSEISelLowering.cpp:114-131 | Every multiply or divide node the constructor marks Custom (i32 except MUL; i64 SDIVREM and UDIVREM, and on a 64-bit subtarget MULHS, MULHU and MUL) is lowered exactly at its type |
| MipsLowering.MultHalves | llvm/lib/Target/Mips/MipsSEISelLowering.cpp:252-256 | MULT leaves the low and high words of the signed double-width product in LO and HI, at either operand width |
| DenseMapProbe.ProbesDistinct | llvm/include/llvm/ADT/DenseMap.h:226-251 | With a power-of-two bucket count n, the first n probes hash, hash+1, hash+3, … land in n different buckets |
| DenseMapProbe.ProbesCover | llvm/include/llvm/ADT/DenseMap.h:226-251 | Every bucket is reached within the first n probes, so the loop meets any empty bucket |
| DenseMapProbe.DistanceFacts | llvm/include/llvm/ADT/DenseMap.h:226-251 | Each bucket has a first probe that reaches it, below n, and no earlier probe lands there |
| DenseMap.SomeBucketEmpty | llvm/include/llvm/ADT/DenseMap.h:175-185 | A valid table always has an empty bucket, which is what makes lookup stop |
| DenseMap.EmptyTableValid | llvm/include/llvm/ADT/DenseMap.h:255-266 | A table of n empty buckets is valid and holds no key |
| DenseMap.MissedOnlyIfAbsent | llvm/include/llvm/ADT/DenseMap.h:234-242 | Reaching an empty bucket without having met the key proves the key is absent |
| DenseMap.LookupBucketFor | llvm/include/llvm/ADT/DenseMap.h:214-253 | For an ordinary key, the result is found exactly when the key is present, with its bucket; on a miss it is the first tombstone on the probe path, or else the empty bucket that ended it, and no live bucket |
| DenseMap.Place | llvm/include/llvm/ADT/DenseMap.h:189-197 | Writing an absent key into a free bucket on its probe path keeps the table valid, adds one entry, uses up the tombstone if it was one, and maps the key to its value and every other key as before |
| DenseMap.BuryValid | llvm/include/llvm/ADT/DenseMap.h:149-152 | Turning a key's bucket into a tombstone keeps the table valid and removes exactly that key |
| DenseMap.Grow | llvm/include/llvm/ADT/DenseMap.h:268-302 | grow doubles the bucket count, leaves no tombstone, keeps the entry count and preserves exactly the key/value pairs |
| DenseMap.NoGrowKeepsEmpty | llvm/include/llvm/ADT/DenseMap.h:184-185 | In a table of at least 16 buckets, if neither growth test fires, one more entry still leaves an empty bucket |
| DenseMap.InsertIntoBucket | llvm/include/llvm/ADT/DenseMap.h:173-198 | The table grows (and the bucket is looked up again) exactly when entries·4 ≥ buckets·3 or fewer than buckets/8 buckets are empty; the key is then stored with its value, one more entry, a reused tombstone counted down |
| DenseMap.Insert | llvm/include/llvm/ADT/DenseMap.h:134-142 | insert of a present key returns false and changes nothing; of an absent key it returns true, adds one entry and maps the key to the value, all other keys unchanged |
| DenseMap.Erase | llvm/include/llvm/ADT/DenseMap.h:144-154 | erase of an absent key returns false and changes nothing; of a present key it returns true, one entry fewer, one tombstone more, the key gone and all other keys unchanged |
| DenseMap.Index | llvm/include/llvm/ADT/DenseMap.h:164-170 | operator[] returns the stored value of a present key without changing the table; an absent key is inserted with the default value, one more entry; other keys are unchanged |
| DenseMap.Init | llvm/include/llvm/ADT/DenseMap.h:255-266 | init leaves every bucket empty with 0 entries and 0 tombstones; the requested power of two is rounded up to 16 buckets (see Findings) |
| DenseMap.New | llvm/include/llvm/ADT/DenseMap.h:62-64 | A default-constructed map has 64 empty buckets |
| DenseMap.Log2Ceil | llvm/include/llvm/ADT/DenseMap.h:309-310 | The least c with 2^c ≥ x |
| DenseMap.ShrinkTargetFits | llvm/include/llvm/ADT/DenseMap.h:304-311 | The shrunk bucket count (64, or 2^(⌈log2 n⌉+1) for more than 32 entries) is a power of two, at least 64, below the old count and at least twice the entries |
| DenseMap.ShrinkAndClear | llvm/include/llvm/ADT/DenseMap.h:304-333 | shrink_and_clear leaves a smaller valid table of that size with every bucket empty, no entries and no tombstones |
| DenseMap.ClearInPlace | llvm/include/llvm/ADT/DenseMap.h:101-112 | Clearing in place empties every bucket and counts the entries down to exactly zero, keeping the size |
| DenseMap.Clear | llvm/include/llvm/ADT/DenseMap.h:93-113 | clear leaves no entry, no tombstone and no key; it shrinks exactly when entries·4 < buckets and buckets > 64 |
| DenseMap.AdvancePastEmptyBuckets | llvm/include/llvm/ADT/DenseMap.h:370-376 | The iterator stops at the next live bucket or at the end, skipping only empty buckets and tombstones |
| DenseMap.LiveKeysAreKeys | llvm/include/llvm/ADT/DenseMap.h:77-82 | The keys an iteration visits are exactly the keys of the map, one per entry |
| DenseMap.Keys | llvm/include/llvm/ADT/DenseMap.h:342-376 | Iterating from begin() to end() yields one key per entry, and exactly the keys of the map |
| DenseMapFindings.InitAsWritten | llvm/include/llvm/ADT/DenseMap.h:255-266 | init as written: exactly n empty buckets for any nonzero power of two n |
| DenseMapFindings.NoExitWithoutEmpty | llvm/include/llvm/ADT/DenseMap.h:226-252 | With no empty bucket and the key absent, no probe ever meets the key or an empty bucket, so the lookup loop never exits |
| DenseMapFindings.OneBucketTableTraps | llvm/include/llvm/ADT/DenseMap.h:184-185 | Starting from the source's init(1), inserting 5 passes both growth tests and fills the only bucket; every probe for 7 then lands on that full bucket, so the lookup never exits |
| DenseMapFindings.EightBucketsFillUp | llvm/include/llvm/ADT/DenseMap.h:184-185 | In a concrete 8-bucket table with 5 entries and 2 tombstones, neither growth test fires, the lookup for 15 meets the last empty bucket first, and after 15 is written there every probe for 23 misses both 23 and the empty key |
| TimeProfiler.Escape | llvm/lib/Support/TimeProfiler.cpp:28-51 | The output is at most twice as long as the input and consists only of escaped characters and the printable characters 32..125 |
| TimeProfiler.EscapeWellFormed | llvm/lib/Support/TimeProfiler.cpp:33-47 | The output splits into tokens: a backslash followed by one of `"`, `\`, backspace, form feed, newline, carriage return and tab, or one printable character that is none of those |
| TimeProfiler.UnescapeEscape | llvm/lib/Support/TimeProfiler.cpp:28-51 | Reading the escapes back gives the input up to its NUL with exactly the dropped characters (other controls, 126 and above) removed |
| TimeProfiler.NewProfiler | llvm/lib/Support/TimeProfiler.cpp:64-68 | A new profiler has no open sections, no entries and no totals, and satisfies the totals invariant |
| TimeProfiler.Begin | llvm/lib/Support/TimeProfiler.cpp:70-73 | Begin pushes exactly one entry, holding the name, the detail, the start time and a zero duration, on top of the open sections, and changes nothing else |
| TimeProfiler.End | llvm/lib/Support/TimeProfiler.cpp:75-97 | End requires an open section and pops exactly the top one; it is recorded only if it lasted more than 500 µs; its name's total and count grow by its duration and one only when no other open section has the same name; other names are untouched |
| TimeProfiler.NestedSameNameCountedOnce | llvm/lib/Support/TimeProfiler.cpp:84-94 | Two nested sections of one name add one to the count and only the outer duration to the total |
| TimeProfiler.InsertByDuration | llvm/lib/Support/TimeProfiler.cpp:123 | Inserting into a list ordered by non-increasing duration keeps it ordered and adds exactly the one element |
| TimeProfiler.SortByDuration | llvm/lib/Support/TimeProfiler.cpp:118-123 | The sorted totals are a permutation of the input in non-increasing duration order |
| TimeProfiler.ListTotals | llvm/lib/Support/TimeProfiler.cpp:118-122 | Listing the totals map gives each name once with its total |
| TimeProfiler.SectionEvents | llvm/lib/Support/TimeProfiler.cpp:106-113 | One event per recorded entry, in recording order, timed from the profiler's start, with the name and detail escaped |
| TimeProfiler.TotalEvents | llvm/lib/Support/TimeProfiler.cpp:115-133 | The totals block has one event per name, thread ids 1, 2, 3, …, durations non-increasing |
| TimeProfiler.TotalsOrderedFrom | llvm/lib/Support/TimeProfiler.cpp:124-133 | Emitting sorted totals with a counting tid gives numbered events in non-increasing order |
| TimeProfiler.TotalsCovered | llvm/lib/Support/TimeProfiler.cpp:117-133 | Every name in the totals map gets its total event |
| TimeProfiler.Write | llvm/lib/Support/TimeProfiler.cpp:99-139 | Write requires every section closed and the totals invariant, which keeps the average's divisor nonzero; it emits the section events, then the totals block, then the process-name event |
| TimeProfiler.Initialize | llvm/lib/Support/TimeProfiler.cpp:148-152 | Initialize requires no instance and creates a valid profiler started now with no open sections, no entries and empty per-name totals and counts |
| TimeProfiler.Cleanup | llvm/lib/Support/TimeProfiler.cpp:154-157 | Cleanup leaves no instance |
| TimeProfiler.GlobalBegin | llvm/lib/Support/TimeProfiler.cpp:165-168 | The global Begin is a no-op without an instance and otherwise pushes the new section, with its name, detail and start time, on top of the open ones |
| TimeProfiler.GlobalEnd | llvm/lib/Support/TimeProfiler.cpp:170-173 | The global End is a no-op without an instance and otherwise pops exactly the top open section |
| TimeProfiler.ScopeEnter | llvm/include/llvm/Support/TimeProfiler.h:29-32 | The scope constructor pushes a section with its name, detail and start time on top of the open ones when the profiler is enabled, and does nothing otherwise |
| TimeProfiler.ScopeExit | llvm/include/llvm/Support/TimeProfiler.h:33-36 | The scope destructor does nothing when the profiler is disabled; when enabled it closes the top section as End does, so exactly that section leaves the stack |
| TimeProfiler.ScopeRestoresStack | llvm/include/llvm/Support/TimeProfiler.h:28-37 | A scope created and destroyed while enabled leaves the open-section stack as it found it and the profiler valid |

## Left out

- `llvm/lib/CodeGen/GlobalISel/Legalizer.cpp` is not part of this model. It is a driver loop over a legalizer helper, an artifact combiner and a work list, none of whose sources are available.
- X86: the generated pattern table `SelectCode` is not modelled; cases that fall through to it are reported as "generated".
- X86: also left out are `InstructionSelectBasicBlock` scheduling and dead-node removal, the FP_REG_KILL scan (lines 372-446), `EmitSpecialCodeForMain`/`EmitFunctionEntryCode`, `FindCallStartFromCall`, `AddToISelQueue`/`ReplaceUses` bookkeeping, statistics and debug printing.
- X86: `Select` returns the source's "Unsupported VT" and "Unknown truncate" assertion cases as `Unsupported`. No such node is ever handed to the selector.
- X86Address.Match: addresses are exact naturals rather than 32-bit values, and `Disp` does not wrap. The soundness statements are about the exact address, and nothing is stated about the residue mod 2^32.
- X86Address.MatchOr: the `Disp == 0` test is on the exact displacement. When the source's 32-bit `Disp` wraps to 0, the source folds and the model falls back to Default. Example: `or(add(add(shl(X,2), 0xFFFFFFFC), 4), 1)`. The displacement is 0x100000000 in the model and 0 in the source.
- X86Select.Select: under the as-written address rules nothing is promised for a folded operand, because the address may be wrong (see "## Findings"). A load feeding a multiply or divide is assumed to be used through its value result, not its chain.
- DenseMap.Init: models the corrected init, which rounds the bucket count up to 16. DenseMapFindings.InitAsWritten is the source's init, kept for the finding.
- X86Fold.IsNonImmUse: the recursive search with a shared visited set is modelled as an explicit stack. It visits the same nodes and gives the same answer, but not in the same order.
- MIPS: left out are the constructor's operation-action tables, `addMSAIntType`/`addMSAFloatType`, and the intrinsic lowerings (`lowerINTRINSIC_*`, `lowerDSPIntr`, the MSA intrinsic helpers). These are opcode tables.
- MIPS: also left out are `emitBPOSGE32`/`emitMSACBranchPseudo` (control-flow surgery), `lowerLOAD`/`lowerSTORE` (f64 splitting), `getOpndList`, tail-call eligibility and the command-line flags.
- MIPS: the AND, SHL, SRA, SRL, VSELECT and XOR combines are not among the modelled decisions.
- MipsLowering.LowerBuildVector: `isConstantSplat`'s APInt splat analysis is an input (`splat`), not computed from the elements.
- MipsConstMult: `Log2_64`, `Log2_64_Ceil` and `isPowerOf2_64` come from `MathExtras.h`, which is not part of this model. They are defined here by their mathematical meaning.
- MipsLowering.RewriteFused: `ReplaceAllUsesOfValueWith` is modelled as operand substitution over the graph; node deletion and the later MULT cleanup are not modelled.
- DenseMap: the pointer-hash bit mixing is not modelled. The hash is an arbitrary function supplied with the key traits.
- DenseMap: placement new, destructor calls and raw memory are not modelled; a bucket's value is `Some` exactly when it is live. Copy construction and the destructor are also left out.
- DenseMap: `erase(iterator)`, `find`, `count`, `size`/`empty` and the const iterators are thin wrappers and are not modelled separately.
- DenseMap.LookupBucketFor: `BucketNo` and the probe step are exact naturals reduced mod n. The source's 32-bit unsigned wrap gives the same bucket because n divides 2^32. `NumBuckets` overflow on grow is not modelled.
- DenseMap.Index: returns the value instead of a reference into the table.
- DenseMap.ShrinkAndClear: requires the shrink condition of `clear`, its only caller, because `shrink_and_clear` is private.
- TimeProfiler: clock reads are not modelled; durations and start times are integer microseconds passed in.
- TimeProfiler: the output stream and the JSON number formatting are not modelled. Events are records. The `avg ms` value is computed by `TimeProfiler.AverageMillis`: the microsecond total is converted to the unsigned 64-bit type of the count and divided by the count and then by 1000, as at `TimeProfiler.cpp:130`.
- TimeProfiler.ListTotals: the hash map's iteration order is unspecified. Only "each name once, with its total" is stated.

## Findings

| source | as written | input that shows it | evidently intended | confidence | as-written member | corrected member |
|---|---|---|---|---|---|---|
| llvm/lib/Target/X86/X86ISelDAGToDAG.cpp:591-613 | OR with a constant c is treated as ADD when the other operand matched and c < Scale, Disp == 0 and no global is set; nothing checks that the other operand's low bits are zero | or(mul(X, 9), 1) with X = 1: the value is 9, but the match gives base X + 8·index X + 1 = 10 | fold c only when c is below a power of two known to divide the other operand, so that `|` equals `+` | high; not executed | X86AddressFindings.OrRuleCounterexample | X86AddressSoundness.OrSound |
| llvm/lib/Target/X86/X86ISelDAGToDAG.cpp:488-508 | a wrapped constant-pool entry is taken when only the pool slot is free, and a wrapped global when only the global slot is free; getAddressOperands (lines 158-162) then emits the global and drops the pool entry | add(wrapper(global at 16), wrapper(pool entry at 32)): the value is 48, but the operand addresses 16 | take a symbol only when the mode has none, since the operands carry one | high; not executed | X86AddressFindings.WrapperRuleCounterexample | X86AddressFindings.WrapperRuleCorrected |
| llvm/lib/Target/X86/X86ISelDAGToDAG.cpp:664-688 | register 0 is put into the empty base and index before the test `Disp && (Base || Index)`, so a displacement always adds one to the score | a global plus displacement 4 with no register scores 3 and is turned into an LEA | add one for the displacement only when a real base or index register is present (score 2, no LEA) | medium (a cost decision, not wrong code); not executed | X86SelectAddr.LeaScoreCounterexample | X86SelectAddr.LeaScoresDiffer |
| llvm/include/llvm/ADT/DenseMap.h:184-185 | init accepts any nonzero power of two (lines 255-260), but below 16 buckets the test `empty < buckets/8` cannot keep the last empty bucket | init(1), insert 5 (neither growth test fires), then look up 7: every probe lands on the one full bucket and the lookup never ends | an empty bucket always remains, as the comment at lines 179-183 requires; here `init` rounds the bucket count up to 16 | high; not executed | DenseMapFindings.OneBucketTableTraps | DenseMap.NoGrowKeepsEmpty |

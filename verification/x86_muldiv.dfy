/** The fixed-register sequences the X86 selector emits for multiply-high,
    divide and remainder, and what they compute.

    x86 multiplies and divides through an implicit register pair: the low
    register holds one factor (or the low half of the dividend), the
    instruction leaves the high half of the product (or the remainder) in
    the high register and the low half (or the quotient) in the low one.
    A sequence is a list of steps on that pair; `Outcome` runs it and reads
    the register the selector copies the result from. */
module X86MulDiv {
  import opened Wrappers
  import opened X86Dag
  import opened X86SelectAddr
  import Powers

  // ---------------------------------------------------------------------
  // Widths, registers and the opcode tables
  // ---------------------------------------------------------------------

  datatype Width = W8 | W16 | W32

  function Bits(w: Width): nat {
    match w
    case W8 => 8
    case W16 => 16
    case W32 => 32
  }

  /** 2^Bits(w). */
  function Modulus(w: Width): (m: nat)
    ensures m >= 2 && m % 2 == 0
  {
    match w
    case W8 => 0x100
    case W16 => 0x1_0000
    case W32 => 0x1_0000_0000
  }

  /** The widths the custom cases handle; any other type reaches an
      assertion in the source. */
  function WidthOf(vt: ValueType): (r: Option<Width>)
    ensures r.Some? <==> vt in {IntType(8), IntType(16), IntType(32)}
    ensures r.Some? ==> vt == IntType(Bits(r.value))
  {
    match vt
    case IntType(8) => Some(W8)
    case IntType(16) => Some(W16)
    case IntType(32) => Some(W32)
    case _ => None
  }

  datatype Register = AL | AH | AX | DX | EAX | EDX

  /** The architectural width of each register. */
  function RegisterBits(r: Register): nat {
    match r
    case AL => 8
    case AH => 8
    case AX => 16
    case DX => 16
    case EAX => 32
    case EDX => 32
  }

  /** The selector's table of the implicit low register per width. */
  function LowRegister(w: Width): Register {
    match w
    case W8 => AL
    case W16 => AX
    case W32 => EAX
  }

  /** The selector's table of the implicit high register per width. */
  function HighRegister(w: Width): Register {
    match w
    case W8 => AH
    case W16 => DX
    case W32 => EDX
  }

  /** The sign-extension instructions the signed divide uses. */
  datatype ExtendOpcode = CBW | CWD | CDQ

  /** Architecturally: the register each one reads and the one it fills
      with the sign bits. */
  function ExtendSource(op: ExtendOpcode): Register {
    match op
    case CBW => AL
    case CWD => AX
    case CDQ => EAX
  }

  function ExtendTarget(op: ExtendOpcode): Register {
    match op
    case CBW => AH
    case CWD => DX
    case CDQ => EDX
  }

  /** The selector's table of sign-extension opcodes per width. */
  function SignExtendOpcode(w: Width): ExtendOpcode {
    match w
    case W8 => CBW
    case W16 => CWD
    case W32 => CDQ
  }

  /** The register-clearing pseudo-instructions the unsigned divide uses,
      and the width each clears. */
  datatype ClearOpcode = MOV8r0 | MOV16r0 | MOV32r0

  function ClearBits(op: ClearOpcode): nat {
    match op
    case MOV8r0 => 8
    case MOV16r0 => 16
    case MOV32r0 => 32
  }

  /** The selector's table of clearing opcodes per width. */
  function ClearOpcodeFor(w: Width): ClearOpcode {
    match w
    case W8 => MOV8r0
    case W16 => MOV16r0
    case W32 => MOV32r0
  }

  /** The tables agree with the architecture: the pair are two distinct
      registers of the operation's width, the sign extension reads the low
      register and fills the high one, and the clear writes a full high
      register. */
  lemma RegisterTablesAgree(w: Width)
    ensures LowRegister(w) != HighRegister(w)
    ensures RegisterBits(LowRegister(w)) == Bits(w) && RegisterBits(HighRegister(w)) == Bits(w)
    ensures ExtendSource(SignExtendOpcode(w)) == LowRegister(w)
    ensures ExtendTarget(SignExtendOpcode(w)) == HighRegister(w)
    ensures ClearBits(ClearOpcodeFor(w)) == Bits(w)
  {
  }

  // ---------------------------------------------------------------------
  // Sequences
  // ---------------------------------------------------------------------

  /** MUL, IMUL, DIV, IDIV. */
  datatype ArithKind = UMul | SMul | UDivide | SDivide

  /** The explicit operand: a register holding a DAG value (the `r` forms),
      or a folded load read through a memory operand (the `m` forms), which
      reads what the load would have produced. */
  datatype Source = RegSource(v: Val) | MemSource(ops: MemOperands, load: Val)

  datatype Step =
    | CopyToLow(v: Val)          // CopyToReg into the low register
    | SignExtend(extend: ExtendOpcode)
    | ClearHigh(clear: ClearOpcode) // the clear, copied into the high register
    | Arith(kind: ArithKind, src: Source)

  datatype Half = Low | High

  /** A selected sequence: its width, its steps, the register the result is
      copied from, and the load folded into it, if any. */
  datatype FixedSequence = FixedSequence(w: Width, steps: seq<Step>, result: Half, folded: Option<Val>)

  datatype Regs = Regs(lo: nat, hi: nat)

  /** The two's-complement reading of a w-bit value. */
  function Signed(m: nat, x: nat): int {
    if x < m / 2 then x else x - m
  }

  /** The w-bit value of an integer. */
  function Wrap(m: nat, x: int): nat
    requires m > 0
  {
    x % m
  }

  function Abs(x: int): nat {
    if x < 0 then -x else x
  }

  /** Division rounding toward zero, as signed division is defined. */
  function TruncDiv(a: int, b: int): int
    requires b != 0
  {
    var q := Abs(a) / Abs(b);
    if (a < 0) == (b < 0) then q else -q
  }

  function TruncRem(a: int, b: int): int
    requires b != 0
  {
    a - b * TruncDiv(a, b)
  }

  /** The value the sequence's source operand supplies: a register holds
      its value, a folded memory operand is read at its address operands. */
  function SourceValue(src: Source, val: Val -> nat, read: MemOperands -> nat): nat {
    match src
    case RegSource(v) => val(v)
    case MemSource(ops, _) => read(ops)
  }

  function MulNat(a: nat, b: nat): nat {
    a * b
  }

  /** MUL: the double-width product, split over the pair. */
  function UnsignedMultiply(m: nat, lo: nat, y: nat): Regs
    requires m > 0
  {
    var p := MulNat(lo, y);
    Regs(p % m, p / m)
  }

  /** IMUL: the signed product, split over the pair. */
  function SignedMultiply(m: nat, lo: nat, y: nat): Regs
    requires m > 0
  {
    var p := Signed(m, lo) * Signed(m, y);
    Regs(Wrap(m, p), Wrap(m, p / m))
  }

  /** DIV: the pair divided by `y`, faulting on a zero divisor or a
      quotient that does not fit in the low register. */
  function UnsignedDivide(m: nat, r: Regs, y: nat): Option<Regs>
    requires m > 0
  {
    var d := r.hi * m + r.lo;
    if y == 0 then None
    else
      var q := d / y;
      if q >= m then None else Some(Regs(q, d % y))
  }

  /** IDIV: the pair read as a signed double-width value divided by the
      signed `y`, rounding toward zero, faulting on a zero divisor or a
      quotient that does not fit. */
  function SignedDivide(m: nat, r: Regs, y: nat): Option<Regs>
    requires m > 0
  {
    var d := Signed(m * m, r.hi * m + r.lo);
    var t := Signed(m, y);
    if t == 0 then None
    else
      var q := TruncDiv(d, t);
      if q < -(m / 2) || q >= m / 2 then None
      else Some(Regs(Wrap(m, q), Wrap(m, d - t * q)))
  }

  /** One step on the register pair; None is a divide fault. */
  function Exec(w: Width, s: Step, r: Regs, val: Val -> nat, read: MemOperands -> nat): Option<Regs> {
    var m := Modulus(w);
    match s
    case CopyToLow(v) => Some(r.(lo := val(v) % m))
    case SignExtend(_) => Some(r.(hi := if r.lo >= m / 2 then m - 1 else 0))
    case ClearHigh(_) => Some(r.(hi := 0))
    case Arith(kind, src) =>
      var y := SourceValue(src, val, read) % m;
      match kind
      case UMul => Some(UnsignedMultiply(m, r.lo, y))
      case SMul => Some(SignedMultiply(m, r.lo, y))
      case UDivide => UnsignedDivide(m, r, y)
      case SDivide => SignedDivide(m, r, y)
  }

  function Run(w: Width, steps: seq<Step>, r: Regs, val: Val -> nat, read: MemOperands -> nat): Option<Regs>
    decreases |steps|
  {
    if |steps| == 0 then Some(r)
    else
      var next := Exec(w, steps[0], r, val, read);
      if next.None? then None else Run(w, steps[1..], next.value, val, read)
  }

  /** The value the sequence leaves in its result register, or None if it
      faults. */
  function Outcome(fs: FixedSequence, r: Regs, val: Val -> nat, read: MemOperands -> nat): Option<nat> {
    var final := Run(fs.w, fs.steps, r, val, read);
    if final.None? then None
    else Some(if fs.result == Low then final.value.lo else final.value.hi)
  }

  // ---------------------------------------------------------------------
  // What the operations mean
  // ---------------------------------------------------------------------

  /** Signed division overflows only for the most negative value divided by
      minus one. */
  predicate SignedOverflow(m: nat, x: nat, y: nat) {
    x == m / 2 && Signed(m, y) == -1
  }

  /** The w-bit result of each operation on the w-bit readings of `a` and
      `b`, as the DAG opcodes define it; None where the machine faults. */
  function Expected(op: Opcode, w: Width, a: nat, b: nat): Option<nat> {
    var m := Modulus(w);
    var x := a % m;
    var y := b % m;
    match op
    case MulHU => Some(MulNat(x, y) / m)
    case MulHS => Some(Wrap(m, Signed(m, x) * Signed(m, y) / m))
    case UDiv => if y == 0 then None else Some(x / y)
    case URem => if y == 0 then None else Some(x % y)
    case SDiv =>
      if y == 0 || SignedOverflow(m, x, y) then None
      else Some(SignedQuotient(m, x, y))
    case SRem =>
      if y == 0 || SignedOverflow(m, x, y) then None
      else Some(SignedRemainder(m, x, y))
    case _ => None
  }

  /** The w-bit quotient of the signed readings, truncated toward zero. */
  function SignedQuotient(m: nat, x: nat, y: nat): nat
    requires 0 < y < m
  {
    Wrap(m, TruncDiv(Signed(m, x), Signed(m, y)))
  }

  /** The w-bit remainder of the signed readings, with the dividend's sign. */
  function SignedRemainder(m: nat, x: nat, y: nat): nat
    requires 0 < y < m
  {
    Wrap(m, TruncRem(Signed(m, x), Signed(m, y)))
  }

  /** The multiply-high sequence: the first factor into the low register,
      MUL or IMUL, and the result from the high register. */
  function MulHighSequence(signed: bool, w: Width, n0: Val, src: Source, folded: Option<Val>): FixedSequence {
    FixedSequence(w, [CopyToLow(n0), Arith(if signed then SMul else UMul, src)], High, folded)
  }

  /** The divide sequence: the dividend into the low register, the high
      register sign-extended (signed) or cleared (unsigned), DIV or IDIV,
      and the quotient from the low register or the remainder from the
      high one. */
  function DivRemSequence(signed: bool, isDiv: bool, w: Width, n0: Val, src: Source, folded: Option<Val>): FixedSequence {
    var widen := if signed then SignExtend(SignExtendOpcode(w)) else ClearHigh(ClearOpcodeFor(w));
    FixedSequence(w, [CopyToLow(n0), widen, Arith(if signed then SDivide else UDivide, src)],
                  if isDiv then Low else High, folded)
  }

  // ---------------------------------------------------------------------
  // Arithmetic facts
  // ---------------------------------------------------------------------

  lemma DivBelow(a: nat, b: nat)
    requires b >= 1
    ensures a / b <= a
    ensures b >= 2 ==> 2 * (a / b) <= a
  {
    var q := a / b;
    assert a == b * q + a % b;
    if q > 0 {
      Powers.MulAtLeast(b, q);
      if b >= 2 {
        Powers.MulAtLeast(b - 1, q);
        assert b * q == (b - 1) * q + q;
      }
    }
  }

  /** With the high register holding the sign bits of the low one, the
      double-width pair reads as the low register's signed value. */
  lemma SignExtendedPair(m: nat, x: nat)
    requires m >= 2 && m % 2 == 0 && x < m
    ensures Signed(m * m, (if x >= m / 2 then m - 1 else 0) * m + x) == Signed(m, x)
  {
    var mm := m * m;
    assert mm / 2 == m * (m / 2);
    assert m * (m / 2) >= m by {
      assert m / 2 >= 1;
    }
    if x >= m / 2 {
      assert (m - 1) * m == mm - m;
      assert m * (m / 2) <= mm - m / 2 by {
        assert m * (m / 2) + m / 2 == (m + 1) * (m / 2);
        assert (m + 1) * (m / 2) <= m * (m / 2) + m * (m / 2);
      }
    }
  }

  /** The truncated quotient of two w-bit signed values fits in w bits
      except for the most negative value divided by minus one. */
  lemma QuotientFits(h: int, a: int, b: int)
    requires h >= 1 && -h <= a < h && -h <= b < h && b != 0
    ensures -h <= TruncDiv(a, b) <= h
    ensures TruncDiv(a, b) == h <==> a == -h && b == -1
  {
    DivBelow(Abs(a), Abs(b));
    var q := Abs(a) / Abs(b);
    if q == h {
      assert Abs(b) == 1 && Abs(a) == h;
    }
  }

  lemma SignedRange(m: nat, x: nat)
    requires m >= 2 && m % 2 == 0 && x < m
    ensures -(m / 2) <= Signed(m, x) < m / 2
    ensures Signed(m, x) == 0 <==> x == 0
    ensures Signed(m, x) == -(m / 2) <==> x == m / 2
  {
  }

  // ---------------------------------------------------------------------
  // The sequences compute the operations
  // ---------------------------------------------------------------------

  /** Running a sequence is running its first step, then the rest. */
  lemma RunFirst(w: Width, steps: seq<Step>, r: Regs, r1: Regs, val: Val -> nat, read: MemOperands -> nat)
    requires |steps| > 0 && Exec(w, steps[0], r, val, read) == Some(r1)
    ensures Run(w, steps, r, val, read) == Run(w, steps[1..], r1, val, read)
  {
  }

  /** The last step decides the outcome: a fault, or its register. */
  lemma RunLast(w: Width, s: Step, r: Regs, val: Val -> nat, read: MemOperands -> nat)
    ensures Run(w, [s], r, val, read) == Exec(w, s, r, val, read)
  {
    var next := Exec(w, s, r, val, read);
    if next.Some? {
      assert Run(w, [s][1..], next.value, val, read) == next;
    }
  }

  /** Whatever the registers held before, the multiply-high sequence leaves
      the high half of the product in the high register. */
  lemma MulHighComputes(signed: bool, w: Width, n0: Val, src: Source, folded: Option<Val>, r: Regs, val: Val -> nat, read: MemOperands -> nat)
    ensures Outcome(MulHighSequence(signed, w, n0, src, folded), r, val, read)
        == Expected(if signed then MulHS else MulHU, w, val(n0), SourceValue(src, val, read))
  {
    var fs := MulHighSequence(signed, w, n0, src, folded);
    var m := Modulus(w);
    var x := val(n0) % m;
    var y := SourceValue(src, val, read) % m;
    var r1 := r.(lo := x);
    RunFirst(w, fs.steps, r, r1, val, read);
    assert fs.steps[1..] == [fs.steps[1]];
    RunLast(w, fs.steps[1], r1, val, read);
    var r2 := if signed then SignedMultiply(m, x, y) else UnsignedMultiply(m, x, y);
    assert Run(w, fs.steps, r, val, read) == Some(r2);
  }

  /** Unsigned division: with the high register cleared the quotient always
      fits, so the sequence faults exactly on a zero divisor and otherwise
      yields the quotient or the remainder. */
  lemma UnsignedDivComputes(isDiv: bool, w: Width, n0: Val, src: Source, folded: Option<Val>, r: Regs, val: Val -> nat, read: MemOperands -> nat)
    ensures Outcome(DivRemSequence(false, isDiv, w, n0, src, folded), r, val, read)
        == Expected(if isDiv then UDiv else URem, w, val(n0), SourceValue(src, val, read))
  {
    var fs := DivRemSequence(false, isDiv, w, n0, src, folded);
    var m := Modulus(w);
    var x := val(n0) % m;
    var y := SourceValue(src, val, read) % m;
    var r1 := r.(lo := x);
    var r2 := Regs(x, 0);
    RunFirst(w, fs.steps, r, r1, val, read);
    RunFirst(w, fs.steps[1..], r1, r2, val, read);
    assert fs.steps[1..][1..] == [fs.steps[2]];
    RunLast(w, fs.steps[2], r2, val, read);
    assert Run(w, fs.steps, r, val, read) == UnsignedDivide(m, r2, y);
    UnsignedDivideCleared(m, x, y);
  }

  /** DIV with a cleared high register never overflows. */
  lemma UnsignedDivideCleared(m: nat, x: nat, y: nat)
    requires m > 0 && x < m
    ensures UnsignedDivide(m, Regs(x, 0), y) == if y == 0 then None else Some(Regs(x / y, x % y))
  {
    assert 0 * m + x == x;
    if y != 0 {
      DivBelow(x, y);
    }
  }

  /** The signed divide sequence runs as IDIV on the sign-extended pair. */
  lemma SignedDivRuns(isDiv: bool, w: Width, n0: Val, src: Source, folded: Option<Val>, r: Regs, val: Val -> nat, read: MemOperands -> nat)
    ensures var m := Modulus(w);
      var x := val(n0) % m;
      Run(w, DivRemSequence(true, isDiv, w, n0, src, folded).steps, r, val, read)
        == SignedDivide(m, Regs(x, if x >= m / 2 then m - 1 else 0), SourceValue(src, val, read) % m)
  {
    var fs := DivRemSequence(true, isDiv, w, n0, src, folded);
    var m := Modulus(w);
    var x := val(n0) % m;
    var r1 := r.(lo := x);
    var r2 := Regs(x, if x >= m / 2 then m - 1 else 0);
    RunFirst(w, fs.steps, r, r1, val, read);
    RunFirst(w, fs.steps[1..], r1, r2, val, read);
    assert fs.steps[1..][1..] == [fs.steps[2]];
    RunLast(w, fs.steps[2], r2, val, read);
  }

  /** Signed division: after the sign extension the pair holds the signed
      dividend, so the sequence faults exactly on a zero divisor or the one
      overflowing quotient and otherwise yields the truncated quotient or
      its remainder. */
  lemma SignedDivComputes(isDiv: bool, w: Width, n0: Val, src: Source, folded: Option<Val>, r: Regs, val: Val -> nat, read: MemOperands -> nat)
    ensures Outcome(DivRemSequence(true, isDiv, w, n0, src, folded), r, val, read)
        == Expected(if isDiv then SDiv else SRem, w, val(n0), SourceValue(src, val, read))
  {
    var m := Modulus(w);
    var x := val(n0) % m;
    var y := SourceValue(src, val, read) % m;
    SignedDivRuns(isDiv, w, n0, src, folded, r, val, read);
    SignedDivideExtended(m, x, y);
  }

  /** IDIV after a sign extension faults exactly on a zero divisor or the
      overflowing quotient, and otherwise yields the truncated quotient and
      remainder. */
  lemma SignedDivideExtended(m: nat, x: nat, y: nat)
    requires m >= 2 && m % 2 == 0 && x < m && y < m
    ensures var r := SignedDivide(m, Regs(x, if x >= m / 2 then m - 1 else 0), y);
      && (r.None? <==> y == 0 || SignedOverflow(m, x, y))
      && (r.Some? ==>
            && y != 0
            && r.value.lo == SignedQuotient(m, x, y)
            && r.value.hi == SignedRemainder(m, x, y))
  {
    SignExtendedPair(m, x);
    SignedRange(m, x);
    SignedRange(m, y);
    if y != 0 {
      QuotientFits(m / 2, Signed(m, x), Signed(m, y));
    }
  }
}

/**
  The instructions of line-number programs (section 6.2.5 of DWARF Version 4)
  and the proof of which of them the byte-coded machine executes as defined.
 */
module LineReference {
  import opened Bytes
  import opened Leb128
  import opened LineMachine

  /** The registers that a row is made of. */
  datatype Row = Row(address: int, file: int, line: int, column: int, isStmt: bool, endSequence: bool)

  /** The instructions of DWARF Version 4, with the number of bytes used for their operands; the last byte
      count of an extended instruction is that of its length field. */
  datatype Op =
    | Copy
    | AdvancePc(n: nat, w: nat)
    | AdvanceLine(d: int, w: nat)
    | SetFile(n: nat, w: nat)
    | SetColumn(n: nat, w: nat)
    | NegateStmt
    | SetBasicBlock
    | ConstAddPc
    | FixedAdvancePc(n: nat)
    | SetPrologueEnd
    | SetEpilogueBegin
    | SetIsa(n: nat, w: nat)
    | Special(k: u8)
    | EndSequence(w: nat)
    | SetAddress(a: nat, size: nat, w: nat)
    | DefineFile(operands: seq<u8>, w: nat)
    | SetDiscriminator(n: nat, wn: nat, w: nat)

  /** The registers that describe one row only: the standard clears them once a row is made. */
  datatype Flags = Flags(basicBlock: bool, prologueEnd: bool, discriminator: nat)

  const CLEAR: Flags := Flags(false, false, 0)

  /** What an instruction sets among them. */
  function SetFlags(f: Flags, op: Op): Flags {
    match op
    case SetBasicBlock => f.(basicBlock := true)
    case SetPrologueEnd => f.(prologueEnd := true)
    case SetDiscriminator(n, _, _) => f.(discriminator := n)
    case _ => f
  }

  function InitialRow(p: Prologue): Row { Row(0, 1, 1, 0, p.defaultIsStmt != 0, false) }

  predicate Emits(op: Op) { op.Copy? || op.Special? || op.EndSequence? }

  /** What a special opcode adds to the address and to the line. */
  function SpecialAddress(p: Prologue, k: u8): int
    requires p.opcodeBase <= k && p.lineRange > 0
  {
    p.minInsnLength * Quot(k - p.opcodeBase, p.lineRange)
  }

  function SpecialLine(p: Prologue, k: u8): int
    requires p.opcodeBase <= k && p.lineRange > 0
  {
    p.lineBase + (k - p.opcodeBase) % p.lineRange
  }

  /** The effect of an instruction on the registers, as the standard defines it. */
  function Step(p: Prologue, r: Row, op: Op): Row
    requires op.ConstAddPc? ==> p.lineRange > 0
    requires op.Special? ==> p.opcodeBase <= op.k && p.lineRange > 0
  {
    match op
    case AdvancePc(n, _) => r.(address := r.address + p.minInsnLength * n)
    case AdvanceLine(d, _) => r.(line := r.line + d)
    case SetFile(n, _) => r.(file := n)
    case SetColumn(n, _) => r.(column := n)
    case NegateStmt => r.(isStmt := !r.isStmt)
    case ConstAddPc => r.(address := r.address + p.minInsnLength * Quot(255 - p.opcodeBase, p.lineRange))
    case FixedAdvancePc(n) => r.(address := r.address + n)
    case Special(k) => r.(address := r.address + SpecialAddress(p, k), line := r.line + SpecialLine(p, k))
    case EndSequence(_) => r.(endSequence := true)
    case SetAddress(a, _, _) => r.(address := a)
    case _ => r
  }

  /** An operand of 64 bits, written in `w` bytes. */
  predicate FitsU(n: nat, w: nat) { w >= 1 && n < TWO64 && n < Pow2(7 * w) }

  /** Standard opcodes are those below the prologue's opcode base, special opcodes the others. */
  predicate Encodable(p: Prologue, op: Op) {
    match op
    case Copy => 1 < p.opcodeBase
    case AdvancePc(n, w) => 2 < p.opcodeBase && FitsU(n, w)
    case AdvanceLine(d, w) => 3 < p.opcodeBase && w >= 1 && FitsS(d, w) && -TWO63 <= d < TWO63
    case SetFile(n, w) => 4 < p.opcodeBase && FitsU(n, w)
    case SetColumn(n, w) => 5 < p.opcodeBase && FitsU(n, w)
    case NegateStmt => 6 < p.opcodeBase
    case SetBasicBlock => 7 < p.opcodeBase
    case ConstAddPc => 8 < p.opcodeBase && p.lineRange > 0
    case FixedAdvancePc(n) => 9 < p.opcodeBase && n < 0x1_0000
    case SetPrologueEnd => 10 < p.opcodeBase
    case SetEpilogueBegin => 11 < p.opcodeBase
    case SetIsa(n, w) => 12 < p.opcodeBase && FitsU(n, w)
    case Special(k) => 0 < p.opcodeBase <= k && p.lineRange > 0
    case EndSequence(w) => FitsU(1, w)
    case SetAddress(a, size, w) => a < Pow2(8 * size) && FitsU(1 + size, w)
    case DefineFile(operands, w) => FitsU(1 + |operands|, w)
    case SetDiscriminator(n, wn, w) => FitsU(n, wn) && FitsU(1 + wn, w)
  }

  /** What the machine executes as the standard says.  It takes 1 to 10 as standard opcodes and 11 and above
      as special opcodes whatever the base is, scales the line increment of a special opcode by the minimum
      instruction length, does not skip the operand of a fixed advance, reads operands of at most 19 bytes,
      signed ones of at most 18, and addresses of 4 and 8 bytes. */
  predicate Supported(p: Prologue, op: Op) {
    Encodable(p, op) &&
    match op
    case AdvancePc(_, w) => w <= MAX_BYTES
    case AdvanceLine(_, w) => w < MAX_BYTES
    case SetFile(_, w) => w <= MAX_BYTES
    case SetColumn(_, w) => w <= MAX_BYTES
    case FixedAdvancePc(_) | SetEpilogueBegin | SetIsa(_, _) | DefineFile(_, _) => false
    case Special(k) =>
      if k > 10 then p.minInsnLength == 1 || SpecialLine(p, k) == 0
      else k == 1 && SpecialLine(p, k) == 0 && SpecialAddress(p, k) == 0
    case EndSequence(w) => w <= MAX_BYTES
    case SetAddress(_, size, w) => (size == 4 || size == 8) && w <= MAX_BYTES
    case SetDiscriminator(_, wn, w) => wn <= MAX_BYTES && w <= MAX_BYTES
    case _ => true
  }

  predicate InRange(r: Row) { 0 <= r.address < TWO64 && 0 <= r.line < TWO63 }

  function Encode(p: Prologue, op: Op): (s: seq<u8>)
    requires Encodable(p, op)
    ensures |s| >= 1
  {
    match op
    case Copy => [1]
    case AdvancePc(n, w) => [2] + EncodeU(n, w)
    case AdvanceLine(d, w) => [3] + EncodeS(d, w)
    case SetFile(n, w) => [4] + EncodeU(n, w)
    case SetColumn(n, w) => [5] + EncodeU(n, w)
    case NegateStmt => [6]
    case SetBasicBlock => [7]
    case ConstAddPc => [8]
    case FixedAdvancePc(n) => [9, n % 256, n / 256]
    case SetPrologueEnd => [10]
    case SetEpilogueBegin => [11]
    case SetIsa(n, w) => [12] + EncodeU(n, w)
    case Special(k) => [k]
    case EndSequence(w) => [0] + EncodeU(1, w) + [1]
    case SetAddress(a, size, w) => [0] + EncodeU(1 + size, w) + ([2] + WordBytes(a, size))
    case DefineFile(operands, w) => [0] + EncodeU(1 + |operands|, w) + ([3] + operands)
    case SetDiscriminator(n, wn, w) => [0] + EncodeU(1 + wn, w) + ([4] + EncodeU(n, wn))
  }

  function Registers(s: States): Row { Row(s.address, s.file, s.line, s.column, s.isStmt, s.endSequence) }

  function FlagsOf(s: States): Flags { Flags(s.basicBlock, s.prologueEnd, s.discriminator) }

  /** The outcome of an instruction, up to what is cleared after a row, is what the standard says. */
  ghost predicate Does(p: Prologue, op: Op, s: States, o: Outcome)
    requires Encodable(p, op)
  {
    && o.Done? && o.size == |Encode(p, op)| && o.emit == Emits(op)
    && Registers(o.states) == Step(p, Registers(s), op) && FlagsOf(o.states) == SetFlags(FlagsOf(s), op)
    && o.states.shouldReset == (s.shouldReset || op.EndSequence?)
  }

  /** The machine executes the encoding of `op` found at `|pre|`. */
  ghost predicate Executes(p: Prologue, pre: seq<u8>, op: Op, rest: seq<u8>, s: States)
    requires Encodable(p, op)
  {
    Does(p, op, s, Exec(pre + Encode(p, op) + rest, p, |pre|, s))
  }

  lemma Operand(pre: seq<u8>, code: u8, tail: seq<u8>, rest: seq<u8>)
    ensures
      var stmts := pre + ([code] + tail) + rest;
      stmts[|pre|] == code && stmts[|pre| + 1..] == tail + rest
  {
  }

  lemma ReadBackU(n: nat, w: nat, rest: seq<u8>)
    requires FitsU(n, w)
    ensures ReadU64(EncodeU(n, w) + rest) == if w <= MAX_BYTES then Value(n, w) else Overflow
  {
    hide Pow2;
    hide EncodeU;
    hide ReadU;
    ReadEncodedU(n, w, rest);
    Two64Below();
    DivMod(n, Pow2(128), 0, n);
    DivMod(n, TWO64, 0, n);
  }

  lemma Two64Below()
    ensures TWO64 <= Pow2(128)
  {
    Pow2Monotone(64, 128);
    Pow2Is64();
  }

  lemma ReadBackS(d: int, w: nat, rest: seq<u8>)
    requires w >= 1 && FitsS(d, w) && -TWO63 <= d < TWO63
    ensures ReadI64(EncodeS(d, w) + rest) == if w < MAX_BYTES then Value(d, w) else Overflow
  {
    hide Pow2;
    hide ReadU;
    ReadEncodedS(d, w, rest);
    DivMod(d, TWO64, if d < 0 then -1 else 0, if d < 0 then d + TWO64 else d);
  }

  // ---------- standard opcodes without operands ----------

  lemma PlainExecutes(p: Prologue, pre: seq<u8>, op: Op, rest: seq<u8>, s: States)
    requires Encodable(p, op) && InRange(Registers(s)) && InRange(Step(p, Registers(s), op))
    requires op.Copy? || op.NegateStmt? || op.SetBasicBlock? || op.SetPrologueEnd? || op.ConstAddPc?
    ensures Executes(p, pre, op, rest, s)
  {
    hide Pow2;
    hide ReadU64;
    hide ReadI64;
    assert (pre + Encode(p, op) + rest)[|pre|] == Encode(p, op)[0];
  }

  /** Opcodes 11 and 12 below the opcode base are not known to the machine. */
  lemma UnknownPanics(p: Prologue, pre: seq<u8>, op: Op, rest: seq<u8>, s: States)
    requires Encodable(p, op) && (op.SetEpilogueBegin? || op.SetIsa?)
    ensures Exec(pre + Encode(p, op) + rest, p, |pre|, s) == Panic && !Executes(p, pre, op, rest, s)
  {
    hide Pow2;
    hide ReadU64;
    hide ReadI64;
    var stmts := pre + Encode(p, op) + rest;
    assert stmts[|pre|] == Encode(p, op)[0];
    assert Exec(stmts, p, |pre|, s) == Panic;
  }

  /** An advance by a fixed operand advances the address but not past its operand, whose two bytes are then
      executed as instructions; at the end of the program it fails. */
  lemma FixedAdvanceIsMisread(p: Prologue, pre: seq<u8>, op: Op, rest: seq<u8>, s: States)
    requires Encodable(p, op) && op.FixedAdvancePc?
    ensures !Executes(p, pre, op, rest, s)
    ensures Exec(pre + Encode(p, op) + rest, p, |pre|, s) == if rest == [] then Fail else Advance(s, op.n, p, 1, false)
  {
    hide Advance;
    var stmts := pre + Encode(p, op) + rest;
    assert stmts[|pre|] == 9;
    if rest != [] {
      var operand := stmts[|pre| + 1..|pre| + 3];
      assert operand == [op.n % 256, op.n / 256] && operand[1..] == [op.n / 256] && operand[1..][1..] == [];
      assert Word(operand[1..]) == op.n / 256;
    }
    AdvanceSize(s, op.n, p, 1, false);
  }

  lemma AdvanceSize(s: States, adv: nat, p: Prologue, size: nat, emit: bool)
    ensures Advance(s, adv, p, size, emit).Done? ==> Advance(s, adv, p, size, emit).size == size
  {
  }

  // ---------- special opcodes ----------

  /** A special opcode adds `a` to the address and `d` to the line. */
  lemma SpecialOutcome(p: Prologue, stmts: seq<u8>, ip: nat, s: States, k: u8, a: nat, d: int)
    requires ip < |stmts| && stmts[ip] == k && 10 < k && p.opcodeBase <= k && p.lineRange > 0
    requires a == SpecialAddress(p, k) && s.address + a < TWO64
    requires d == SpecialLine(p, k) * p.minInsnLength
    ensures Exec(stmts, p, ip, s) == MoveLine(s.(address := s.address + a), d, 1, true)
  {
    assert Advance(s, Quot(k - p.opcodeBase, p.lineRange), p, 1, true) == Done(1, true, s.(address := s.address + a));
  }

  lemma SpecialDoes(p: Prologue, stmts: seq<u8>, ip: nat, op: Op, s: States)
    requires Supported(p, op) && InRange(Registers(s)) && InRange(Step(p, Registers(s), op)) && op.Special? && 10 < op.k
    requires ip < |stmts| && stmts[ip] == op.k
    ensures Does(p, op, s, Exec(stmts, p, ip, s))
  {
    hide Pow2;
    hide Exec;
    hide SpecialAddress;
    hide SpecialLine;
    var a, d := SpecialAddress(p, op.k), SpecialLine(p, op.k);
    SpecialAddressPositive(p, op.k);
    assert d * p.minInsnLength == d;
    SpecialOutcome(p, stmts, ip, s, op.k, a, d);
    DivMod(s.line + d, TWO64, 0, s.line + d);
  }

  lemma SpecialAddressPositive(p: Prologue, k: u8)
    requires p.opcodeBase <= k && p.lineRange > 0
    ensures SpecialAddress(p, k) >= 0
  {
    MulLe(0, p.minInsnLength, Quot(k - p.opcodeBase, p.lineRange));
  }

  /** The line register after adding `e` is not the line of the standard. */
  lemma SpecialDiffers(p: Prologue, stmts: seq<u8>, ip: nat, s: States, k: u8, e: int)
    requires ip < |stmts| && stmts[ip] == k && p.opcodeBase <= k && 10 < k && p.lineRange > 0
    requires InRange(Registers(s)) && InRange(Step(p, Registers(s), Special(k)))
    requires e == SpecialLine(p, k) * p.minInsnLength && e != SpecialLine(p, k) && -0x8000 <= e < 0x1_8000
    ensures
      var o := Exec(stmts, p, ip, s);
      o.Done? ==> Registers(o.states).line != Step(p, Registers(s), Special(k)).line
  {
    hide Pow2;
    hide Exec;
    hide SpecialAddress;
    hide SpecialLine;
    var l := s.line + e;
    DivMod(l, TWO64, if l < 0 then -1 else 0, if l < 0 then l + TWO64 else l);
    SpecialAddressPositive(p, k);
    SpecialOutcome(p, stmts, ip, s, k, SpecialAddress(p, k), e);
  }

  lemma ScaledDiffers(d: int, m: u8)
    requires -0x80 <= d < 0x180 && d != 0 && m != 1
    ensures d * m != d && -0x8000 <= d * m < 0x1_8000
  {
    assert d * m - d == d * (m - 1);
  }

  /** A special opcode of 10 or less is executed as the standard opcode of that number, if at all. */
  lemma SmallSpecial(p: Prologue, stmts: seq<u8>, ip: nat, op: Op, s: States)
    requires Encodable(p, op) && op.Special? && op.k <= 10
    requires ip < |stmts| && stmts[ip] == op.k
    ensures Does(p, op, s, Exec(stmts, p, ip, s)) <==> Supported(p, op)
  {
    hide Pow2;
    hide ReadU64;
    hide ReadI64;
    hide Word;
    if op.k != 1 {
      SmallSpecialIsSilent(p, stmts, ip, op.k, s);
    }
  }

  lemma SmallSpecialIsSilent(p: Prologue, stmts: seq<u8>, ip: nat, k: u8, s: States)
    requires 1 < k <= 10 && ip < |stmts| && stmts[ip] == k
    ensures Exec(stmts, p, ip, s).Done? ==> !Exec(stmts, p, ip, s).emit
  {
    hide Pow2;
    hide ReadU64;
    hide ReadI64;
    hide Word;
  }

  /** A special opcode is executed as the standard says if and only if it is above 10 and its line increment survives
      the multiplication by the minimum instruction length, or it is 1 and adds nothing. */
  lemma SpecialIsExactIff(p: Prologue, pre: seq<u8>, op: Op, rest: seq<u8>, s: States)
    requires Encodable(p, op) && op.Special? && InRange(Registers(s)) && InRange(Step(p, Registers(s), op))
    ensures Executes(p, pre, op, rest, s) <==> Supported(p, op)
  {
    hide Pow2;
    hide Exec;
    hide Does;
    var stmts := pre + Encode(p, op) + rest;
    assert stmts[|pre|] == op.k;
    if op.k <= 10 {
      SmallSpecial(p, stmts, |pre|, op, s);
    } else if Supported(p, op) {
      SpecialDoes(p, stmts, |pre|, op, s);
    } else {
      SpecialIsNot(p, stmts, |pre|, op, s);
    }
  }

  lemma SpecialIsNot(p: Prologue, stmts: seq<u8>, ip: nat, op: Op, s: States)
    requires Encodable(p, op) && op.Special? && 10 < op.k && !Supported(p, op)
    requires InRange(Registers(s)) && InRange(Step(p, Registers(s), op)) && ip < |stmts| && stmts[ip] == op.k
    ensures !Does(p, op, s, Exec(stmts, p, ip, s))
  {
    hide Pow2;
    hide Exec;
    ScaledDiffers(SpecialLine(p, op.k), p.minInsnLength);
    SpecialDiffers(p, stmts, ip, s, op.k, SpecialLine(p, op.k) * p.minInsnLength);
  }

  // ---------- standard opcodes with an operand ----------

  function OperandCode(op: Op): u8
    requires op.AdvancePc? || op.SetFile? || op.SetColumn?
  {
    if op.AdvancePc? then 2 else if op.SetFile? then 4 else 5
  }

  lemma OperandDoes(p: Prologue, stmts: seq<u8>, ip: nat, op: Op, s: States)
    requires Supported(p, op) && InRange(Registers(s)) && InRange(Step(p, Registers(s), op))
    requires op.AdvancePc? || op.SetFile? || op.SetColumn?
    requires ip < |stmts| && stmts[ip] == OperandCode(op) && ReadU64(stmts[ip + 1..]) == Value(op.n, op.w)
    ensures Does(p, op, s, Exec(stmts, p, ip, s))
  {
    hide Pow2;
    assert Exec(stmts, p, ip, s) == WithOperand(stmts, ip, s, p, OperandCode(op));
  }

  lemma OperandPanics(p: Prologue, stmts: seq<u8>, ip: nat, op: Op, s: States)
    requires op.AdvancePc? || op.SetFile? || op.SetColumn?
    requires ip < |stmts| && stmts[ip] == OperandCode(op) && ReadU64(stmts[ip + 1..]) == Overflow
    ensures Exec(stmts, p, ip, s) == Panic
  {
    hide Pow2;
    hide ReadU64;
    assert Exec(stmts, p, ip, s) == WithOperand(stmts, ip, s, p, OperandCode(op));
  }

  lemma OperandExecutes(p: Prologue, pre: seq<u8>, op: Op, rest: seq<u8>, s: States)
    requires Encodable(p, op) && InRange(Registers(s)) && InRange(Step(p, Registers(s), op))
    requires op.AdvancePc? || op.SetFile? || op.SetColumn?
    ensures Executes(p, pre, op, rest, s) <==> Supported(p, op)
  {
    hide Pow2;
    hide Exec;
    hide ReadU64;
    var stmts := pre + Encode(p, op) + rest;
    Operand(pre, OperandCode(op), EncodeU(op.n, op.w), rest);
    ReadBackU(op.n, op.w, rest);
    if op.w <= MAX_BYTES {
      OperandDoes(p, stmts, |pre|, op, s);
    } else {
      OperandPanics(p, stmts, |pre|, op, s);
    }
  }

  lemma LineDoes(p: Prologue, stmts: seq<u8>, ip: nat, op: Op, s: States)
    requires Supported(p, op) && InRange(Registers(s)) && InRange(Step(p, Registers(s), op)) && op.AdvanceLine?
    requires ip < |stmts| && stmts[ip] == 3 && ReadI64(stmts[ip + 1..]) == Value(op.d, op.w)
    ensures Does(p, op, s, Exec(stmts, p, ip, s))
  {
    hide Pow2;
    assert Exec(stmts, p, ip, s) == MoveLine(s, op.d, 1 + op.w, false);
    DivMod(s.line + op.d, TWO64, 0, s.line + op.d);
  }

  lemma LinePanics(p: Prologue, stmts: seq<u8>, ip: nat, s: States)
    requires ip < |stmts| && stmts[ip] == 3 && ReadI64(stmts[ip + 1..]) == Overflow
    ensures Exec(stmts, p, ip, s) == Panic
  {
    hide Pow2;
    hide ReadI64;
  }

  lemma LineExecutes(p: Prologue, pre: seq<u8>, op: Op, rest: seq<u8>, s: States)
    requires Encodable(p, op) && InRange(Registers(s)) && InRange(Step(p, Registers(s), op)) && op.AdvanceLine?
    ensures Executes(p, pre, op, rest, s) <==> Supported(p, op)
  {
    hide Pow2;
    hide Exec;
    hide ReadI64;
    var stmts := pre + Encode(p, op) + rest;
    Operand(pre, 3, EncodeS(op.d, op.w), rest);
    ReadBackS(op.d, op.w, rest);
    if op.w < MAX_BYTES {
      LineDoes(p, stmts, |pre|, op, s);
    } else {
      LinePanics(p, stmts, |pre|, s);
    }
  }

  // ---------- extended opcodes ----------

  lemma ExtendedDispatch(p: Prologue, stmts: seq<u8>, ip: nat, size: nat, w: nat, s: States)
    requires ip < |stmts| && stmts[ip] == 0 && size >= 1 && ReadU64(stmts[ip + 1..]) == Value(size, w)
    ensures Exec(stmts, p, ip, s) == ExecExtended(stmts, s, ip + 1 + w, size, 1 + w + size)
  {
    hide ExecExtended;
    hide ReadU64;
  }

  lemma ExtendedPanics(p: Prologue, stmts: seq<u8>, ip: nat, s: States)
    requires ip < |stmts| && stmts[ip] == 0 && ReadU64(stmts[ip + 1..]) == Overflow
    ensures Exec(stmts, p, ip, s) == Panic
  {
    hide ExecExtended;
    hide ReadU64;
  }

  /** The length and the body of an extended instruction are found behind its zero byte. */
  lemma ExtendedAt(pre: seq<u8>, w: nat, body: seq<u8>, rest: seq<u8>)
    requires body != [] && FitsU(|body|, w)
    ensures
      var stmts := pre + ([0] + EncodeU(|body|, w) + body) + rest;
      var at := |pre| + 1 + w;
      && stmts[|pre|] == 0 && ReadU64(stmts[|pre| + 1..]) == (if w <= MAX_BYTES then Value(|body|, w) else Overflow)
      && at < |stmts| && stmts[at] == body[0] && stmts[at + 1..] == body[1..] + rest
  {
    hide ReadU64;
    ExtendedLayout(pre, EncodeU(|body|, w), body, rest);
    ReadBackU(|body|, w, body + rest);
  }

  lemma ExtendedLayout(pre: seq<u8>, len: seq<u8>, body: seq<u8>, rest: seq<u8>)
    requires body != []
    ensures
      var stmts := pre + ([0] + len + body) + rest;
      var at := |pre| + 1 + |len|;
      && stmts[|pre|] == 0 && stmts[|pre| + 1..] == len + (body + rest)
      && at < |stmts| && stmts[at] == body[0] && stmts[at + 1..] == body[1..] + rest
  {
    var stmts := pre + ([0] + len + body) + rest;
    assert stmts == pre + [0] + (len + (body + rest));
    assert stmts == (pre + [0] + len + [body[0]]) + (body[1..] + rest);
  }

  /** The bytes of an extended instruction behind its length. */
  function Body(p: Prologue, op: Op): (body: seq<u8>)
    requires Encodable(p, op) && (op.EndSequence? || op.SetAddress? || op.DefineFile? || op.SetDiscriminator?)
    ensures body != [] && FitsU(|body|, op.w) && Encode(p, op) == [0] + EncodeU(|body|, op.w) + body
  {
    match op
    case EndSequence(_) => [1]
    case SetAddress(a, size, _) => [2] + WordBytes(a, size)
    case DefineFile(operands, _) => [3] + operands
    case SetDiscriminator(n, wn, _) => [4] + EncodeU(n, wn)
  }

  lemma EndDoes(p: Prologue, stmts: seq<u8>, at: nat, op: Op, s: States)
    requires Supported(p, op) && op.EndSequence? && at < |stmts| && stmts[at] == 1
    ensures Does(p, op, s, ExecExtended(stmts, s, at, 1, 1 + op.w + 1))
  {
    hide Pow2;
    hide ReadU64;
  }

  lemma AddressDoesIff(p: Prologue, stmts: seq<u8>, at: nat, op: Op, s: States)
    requires Encodable(p, op) && op.SetAddress? && op.w <= MAX_BYTES
    requires at + 1 + op.size <= |stmts| && stmts[at] == 2
    requires stmts[at + 1..at + 1 + op.size] == WordBytes(op.a, op.size)
    ensures Does(p, op, s, ExecExtended(stmts, s, at, 1 + op.size, 1 + op.w + (1 + op.size))) <==> Supported(p, op)
  {
    hide Pow2;
    hide WordBytes;
    hide ExecExtended;
    hide ReadU64;
    AddressOutcome(stmts, s, at, op.a, op.size, 1 + op.w + (1 + op.size));
  }

  lemma AddressOutcome(stmts: seq<u8>, s: States, at: nat, a: nat, size: nat, total: nat)
    requires a < Pow2(8 * size)
    requires at + 1 + size <= |stmts| && stmts[at] == 2 && stmts[at + 1..at + 1 + size] == WordBytes(a, size)
    ensures ExecExtended(stmts, s, at, 1 + size, total) ==
      if size == 4 || size == 8 then Done(total, false, s.(address := a)) else Fail
  {
    hide ReadU64;
    WordOfBytes(a, size);
  }

  lemma DiscriminatorDoesIff(p: Prologue, stmts: seq<u8>, at: nat, op: Op, s: States)
    requires Encodable(p, op) && op.SetDiscriminator? && op.w <= MAX_BYTES && at < |stmts| && stmts[at] == 4
    requires ReadU64(stmts[at + 1..]) == if op.wn <= MAX_BYTES then Value(op.n, op.wn) else Overflow
    ensures Does(p, op, s, ExecExtended(stmts, s, at, 1 + op.wn, 1 + op.w + (1 + op.wn))) <==> Supported(p, op)
  {
    hide Pow2;
    hide ReadU64;
  }

  /** What is dispatched behind the length of an extended instruction. */
  lemma BodyDoesIff(p: Prologue, stmts: seq<u8>, at: nat, op: Op, rest: seq<u8>, s: States)
    requires Encodable(p, op) && (op.EndSequence? || op.SetAddress? || op.DefineFile? || op.SetDiscriminator?)
    requires op.w <= MAX_BYTES
    requires at < |stmts| && stmts[at] == Body(p, op)[0] && stmts[at + 1..] == Body(p, op)[1..] + rest
    ensures
      var size := |Body(p, op)|;
      Does(p, op, s, ExecExtended(stmts, s, at, size, 1 + op.w + size)) <==> Supported(p, op)
  {
    hide Pow2;
    hide ReadU64;
    hide Does;
    var body := Body(p, op);
    match op
    case EndSequence(_) => EndDoes(p, stmts, at, op, s);
    case SetAddress(a, size, _) =>
      assert body[1..] == WordBytes(a, size);
      assert stmts[at + 1..at + 1 + size] == stmts[at + 1..][..size];
      AddressDoesIff(p, stmts, at, op, s);
    case SetDiscriminator(n, wn, _) =>
      assert body[1..] == EncodeU(n, wn);
      ReadBackU(n, wn, rest);
      DiscriminatorDoesIff(p, stmts, at, op, s);
    case DefineFile(operands, _) =>
      DefineFileFails(p, stmts, at, op, s, |body|);
  }

  lemma DefineFileFails(p: Prologue, stmts: seq<u8>, at: nat, op: Op, s: States, size: nat)
    requires Encodable(p, op) && op.DefineFile? && at < |stmts| && stmts[at] == 3
    ensures ExecExtended(stmts, s, at, size, 1 + op.w + size) == Fail
    ensures !Does(p, op, s, ExecExtended(stmts, s, at, size, 1 + op.w + size))
  {
    hide Pow2;
    hide ReadU64;
  }

  lemma ExtendedExecutes(p: Prologue, pre: seq<u8>, op: Op, rest: seq<u8>, s: States)
    requires Encodable(p, op) && (op.EndSequence? || op.SetAddress? || op.DefineFile? || op.SetDiscriminator?)
    ensures Executes(p, pre, op, rest, s) <==> Supported(p, op)
  {
    hide Pow2;
    hide Exec;
    hide ExecExtended;
    hide ReadU64;
    hide Encode;
    var stmts, body := pre + Encode(p, op) + rest, Body(p, op);
    ExtendedAt(pre, op.w, body, rest);
    if op.w <= MAX_BYTES {
      ExtendedDispatch(p, stmts, |pre|, |body|, op.w, s);
      BodyDoesIff(p, stmts, |pre| + 1 + op.w, op, rest, s);
    } else {
      ExtendedPanics(p, stmts, |pre|, s);
    }
  }

  /** The machine executes an instruction as the standard says if and only if it is supported. */
  lemma ExecutesIff(p: Prologue, pre: seq<u8>, op: Op, rest: seq<u8>, s: States)
    requires Encodable(p, op) && InRange(Registers(s)) && InRange(Step(p, Registers(s), op))
    ensures Executes(p, pre, op, rest, s) <==> Supported(p, op)
  {
    hide Executes;
    hide Pow2;
    match op
    case AdvancePc(_, _) | SetFile(_, _) | SetColumn(_, _) => OperandExecutes(p, pre, op, rest, s);
    case AdvanceLine(_, _) => LineExecutes(p, pre, op, rest, s);
    case Special(_) => SpecialIsExactIff(p, pre, op, rest, s);
    case EndSequence(_) | SetAddress(_, _, _) | DefineFile(_, _) | SetDiscriminator(_, _, _) =>
      ExtendedExecutes(p, pre, op, rest, s);
    case FixedAdvancePc(_) => FixedAdvanceIsMisread(p, pre, op, rest, s);
    case SetEpilogueBegin | SetIsa(_, _) => UnknownPanics(p, pre, op, rest, s);
    case _ => PlainExecutes(p, pre, op, rest, s);
  }

  // ---------- how the other instructions end ----------

  /** An instruction that is not supported ends in a panic if its opcode is unknown or an operand is too long, and in
      an error if it defines a file or sets an address of another size. */
  lemma RefusedOutcome(p: Prologue, pre: seq<u8>, op: Op, rest: seq<u8>, s: States)
    requires Encodable(p, op)
    ensures
      var o := Exec(pre + Encode(p, op) + rest, p, |pre|, s);
      && (op.SetEpilogueBegin? || op.SetIsa? ==> o == Panic)
      && ((op.AdvancePc? || op.SetFile? || op.SetColumn?) && op.w > 19 ==> o == Panic)
      && (op.AdvanceLine? && op.w > 18 ==> o == Panic)
      && ((op.EndSequence? || op.SetAddress? || op.DefineFile? || op.SetDiscriminator?) && op.w > 19 ==> o == Panic)
      && (op.DefineFile? && op.w <= 19 ==> o == Fail)
      && (op.SetAddress? && op.w <= 19 && op.size != 4 && op.size != 8 ==> o == Fail)
      && (op.SetDiscriminator? && op.w <= 19 && op.wn > 19 ==> o == Panic)
  {
    hide Pow2;
    hide Exec;
    hide ReadU64;
    hide ReadI64;
    var stmts := pre + Encode(p, op) + rest;
    match op
    case SetEpilogueBegin | SetIsa(_, _) => UnknownPanics(p, pre, op, rest, s);
    case AdvancePc(_, _) | SetFile(_, _) | SetColumn(_, _) =>
      Operand(pre, OperandCode(op), EncodeU(op.n, op.w), rest);
      ReadBackU(op.n, op.w, rest);
      if op.w > 19 {
        OperandPanics(p, stmts, |pre|, op, s);
      }
    case AdvanceLine(d, w) =>
      Operand(pre, 3, EncodeS(d, w), rest);
      ReadBackS(d, w, rest);
      if w > 18 {
        LinePanics(p, stmts, |pre|, s);
      }
    case EndSequence(_) | SetAddress(_, _, _) | DefineFile(_, _) | SetDiscriminator(_, _, _) =>
      hide Encode;
      ExtendedRefused(p, pre, op, rest, s);
    case _ =>
  }

  lemma ExtendedRefused(p: Prologue, pre: seq<u8>, op: Op, rest: seq<u8>, s: States)
    requires Encodable(p, op) && (op.EndSequence? || op.SetAddress? || op.DefineFile? || op.SetDiscriminator?)
    ensures
      var o := Exec(pre + Encode(p, op) + rest, p, |pre|, s);
      && (op.w > 19 ==> o == Panic)
      && (op.DefineFile? && op.w <= 19 ==> o == Fail)
      && (op.SetAddress? && op.w <= 19 && op.size != 4 && op.size != 8 ==> o == Fail)
      && (op.SetDiscriminator? && op.w <= 19 && op.wn > 19 ==> o == Panic)
  {
    hide Pow2;
    hide Exec;
    hide ExecExtended;
    hide ReadU64;
    hide Encode;
    var stmts, body := pre + Encode(p, op) + rest, Body(p, op);
    ExtendedAt(pre, op.w, body, rest);
    if op.w <= MAX_BYTES {
      var at := |pre| + 1 + op.w;
      ExtendedDispatch(p, stmts, |pre|, |body|, op.w, s);
      BodyRefused(p, stmts, at, op, rest, s);
    } else {
      ExtendedPanics(p, stmts, |pre|, s);
    }
  }

  lemma BodyRefused(p: Prologue, stmts: seq<u8>, at: nat, op: Op, rest: seq<u8>, s: States)
    requires Encodable(p, op) && (op.EndSequence? || op.SetAddress? || op.DefineFile? || op.SetDiscriminator?)
    requires op.w <= MAX_BYTES
    requires at < |stmts| && stmts[at] == Body(p, op)[0] && stmts[at + 1..] == Body(p, op)[1..] + rest
    ensures
      var size := |Body(p, op)|;
      var o := ExecExtended(stmts, s, at, size, 1 + op.w + size);
      && (op.DefineFile? ==> o == Fail)
      && (op.SetAddress? && op.size != 4 && op.size != 8 ==> o == Fail)
      && (op.SetDiscriminator? && op.wn > 19 ==> o == Panic)
  {
    hide Pow2;
    hide ReadU64;
    var body := Body(p, op);
    match op
    case SetAddress(a, size, _) =>
      assert body[1..] == WordBytes(a, size);
      assert stmts[at + 1..at + 1 + size] == stmts[at + 1..][..size];
      AddressOutcome(stmts, s, at, a, size, 1 + op.w + |body|);
    case SetDiscriminator(n, wn, _) =>
      assert body[1..] == EncodeU(n, wn);
      ReadBackU(n, wn, rest);
    case DefineFile(operands, _) => DefineFileFails(p, stmts, at, op, s, |body|);
    case _ =>
  }

  /** An address beyond 64 bits is a panic; a line below 0 wraps to the top of 64 bits. */
  lemma OutOfRange(p: Prologue, pre: seq<u8>, op: Op, rest: seq<u8>, s: States)
    requires Supported(p, op) && InRange(Registers(s)) && (op.AdvancePc? || op.ConstAddPc? || op.AdvanceLine?)
    ensures
      var o, r := Exec(pre + Encode(p, op) + rest, p, |pre|, s), Step(p, Registers(s), op);
      && (r.address >= TWO64 ==> o == Panic)
      && (r.line >= TWO63 ==> o == Panic)
      && (r.line < 0 ==> o.Done? && o.states == s.(line := r.line + TWO64))
  {
    hide Exec;
    hide Encode;
    if op.AdvancePc? {
      PcOutOfRange(p, pre, op, rest, s);
    } else if op.AdvanceLine? {
      LineOutOfRange(p, pre, op, rest, s);
    } else {
      ConstOutOfRange(p, pre, op, rest, s);
    }
  }

  lemma PcOutOfRange(p: Prologue, pre: seq<u8>, op: Op, rest: seq<u8>, s: States)
    requires Supported(p, op) && op.AdvancePc?
    ensures s.address + p.minInsnLength * op.n >= TWO64 ==> Exec(pre + Encode(p, op) + rest, p, |pre|, s) == Panic
  {
    hide Pow2;
    hide ReadU64;
    hide Exec;
    Operand(pre, 2, EncodeU(op.n, op.w), rest);
    ReadBackU(op.n, op.w, rest);
    AdvanceOutcome(p, pre + Encode(p, op) + rest, |pre|, op.n, op.w, s);
  }

  lemma LineOutOfRange(p: Prologue, pre: seq<u8>, op: Op, rest: seq<u8>, s: States)
    requires Supported(p, op) && op.AdvanceLine? && InRange(Registers(s))
    ensures
      var o, l := Exec(pre + Encode(p, op) + rest, p, |pre|, s), s.line + op.d;
      (l >= TWO63 ==> o == Panic) && (l < 0 ==> o.Done? && o.states == s.(line := l + TWO64))
  {
    hide Pow2;
    hide ReadI64;
    hide Exec;
    Operand(pre, 3, EncodeS(op.d, op.w), rest);
    ReadBackS(op.d, op.w, rest);
    LineOutcome(p, pre + Encode(p, op) + rest, |pre|, op.d, op.w, s);
    var l := s.line + op.d;
    DivMod(l, TWO64, if l < 0 then -1 else 0, if l < 0 then l + TWO64 else l);
  }

  lemma LineOutcome(p: Prologue, stmts: seq<u8>, ip: nat, d: int, w: nat, s: States)
    requires ip < |stmts| && stmts[ip] == 3 && ReadI64(stmts[ip + 1..]) == Value(d, w)
    ensures Exec(stmts, p, ip, s) == MoveLine(s, d, 1 + w, false)
  {
    hide ReadI64;
    hide MoveLine;
  }

  lemma ConstOutOfRange(p: Prologue, pre: seq<u8>, op: Op, rest: seq<u8>, s: States)
    requires Supported(p, op) && op.ConstAddPc?
    ensures s.address + p.minInsnLength * Quot(255 - p.opcodeBase, p.lineRange) >= TWO64 ==>
      Exec(pre + Encode(p, op) + rest, p, |pre|, s) == Panic
  {
    hide Pow2;
    hide ReadU64;
    hide ReadI64;
    var stmts := pre + Encode(p, op) + rest;
    assert stmts[|pre|] == 8;
    assert Exec(stmts, p, |pre|, s) == Advance(s, Quot(255 - p.opcodeBase, p.lineRange), p, 1, false);
  }

  lemma AdvanceOutcome(p: Prologue, stmts: seq<u8>, ip: nat, n: nat, w: nat, s: States)
    requires ip < |stmts| && stmts[ip] == 2 && ReadU64(stmts[ip + 1..]) == Value(n, w)
    ensures Exec(stmts, p, ip, s) == Advance(s, n, p, 1 + w, false)
  {
    hide ReadU64;
    hide Advance;
  }
}

/**
  The line-number program of a compile unit: a byte-coded state machine whose
  rows map addresses to source lines.
 */
module LineMachine {
  import opened Wrappers
  import opened Bytes
  import opened Leb128

  const TWO63: int := 0x8000_0000_0000_0000

  type i8 = x: int | -0x80 <= x < 0x80

  /** The fields of the prologue that the state machine uses. */
  datatype Prologue = Prologue(minInsnLength: u8, defaultIsStmt: u8, lineBase: i8, lineRange: u8, opcodeBase: u8)

  datatype States = States(
    address: nat, file: nat, line: nat, column: nat, discriminator: nat,
    isStmt: bool, basicBlock: bool, endSequence: bool, prologueEnd: bool, shouldReset: bool)

  /** DebugLineStates::new and DebugLineStates::reset */
  function Initial(p: Prologue): States {
    States(0, 1, 1, 0, 0, p.defaultIsStmt != 0, false, false, false, false)
  }

  /** The outcome of one instruction: its size, whether it emits a row, and the new registers;
      an error; or a panic (index out of range, arithmetic overflow, division by zero). */
  datatype Outcome = Done(size: nat, emit: bool, states: States) | Fail | Panic

  function ToI64(x: int): int { if x < TWO63 then x else x - TWO64 }

  /** decode_leb128: the low 64 bits. */
  function ReadU64(data: seq<u8>): (r: Leb)
    ensures r.Value? ==> 0 <= r.v < TWO64
  {
    match ReadU(data)
    case Value(v, n) => Value(v % TWO64, n)
    case r => r
  }

  /** decode_leb128_s: the low 64 bits as a signed number. */
  function ReadI64(data: seq<u8>): Leb {
    match ReadI(data)
    case Value(v, n) => Value(ToI64(v % TWO64), n)
    case r => r
  }

  /** The address register advanced by `adv` instructions. */
  function Advance(s: States, adv: nat, p: Prologue, size: nat, emit: bool): Outcome {
    if adv * p.minInsnLength >= TWO64 || s.address + adv * p.minInsnLength >= TWO64 then Panic
    else Done(size, emit, s.(address := s.address + adv * p.minInsnLength))
  }

  /** The line register moved by `d`, through a signed 64-bit addition and a wrapping cast. */
  function MoveLine(s: States, d: int, size: nat, emit: bool): Outcome {
    var l := ToI64(s.line) + d;
    if l < -TWO63 || l >= TWO63 then Panic else Done(size, emit, s.(line := l % TWO64))
  }

  /** An extended instruction of `size` bytes whose opcode is at `at`. */
  function ExecExtended(stmts: seq<u8>, s: States, at: nat, size: nat, total: nat): Outcome {
    if at >= |stmts| then Panic
    else if stmts[at] == 1 then
      if total >= TWO64 then Panic else Done(total, true, s.(endSequence := true, shouldReset := true))
    else if stmts[at] == 2 then
      if size - 1 == 4 then
        if |stmts| - (at + 1) < 4 then Panic else Done(total, false, s.(address := Word(stmts[at + 1..at + 5])))
      else if size - 1 == 8 then
        if |stmts| - (at + 1) < 8 then Panic else Done(total, false, s.(address := Word(stmts[at + 1..at + 9])))
      else Fail
    else if stmts[at] == 4 then
      match ReadU64(stmts[at + 1..])
      case Value(d, n) => if n + 1 == size then Done(total, false, s.(discriminator := d)) else Fail
      case Truncated => Fail
      case Overflow => Panic
    else Fail
  }

  /** An instruction with one unsigned operand. */
  function WithOperand(stmts: seq<u8>, ip: nat, s: States, p: Prologue, op: u8): Outcome
    requires ip < |stmts|
  {
    match ReadU64(stmts[ip + 1..])
    case Truncated => Fail
    case Overflow => Panic
    case Value(v, n) =>
      if op == 2 then Advance(s, v, p, 1 + n, false)
      else if op == 4 then Done(1 + n, false, s.(file := v))
      else Done(1 + n, false, s.(column := v))
  }

  /** A special opcode; the line increment is scaled like the address increment. */
  function ExecSpecial(op: u8, p: Prologue, s: States): Outcome
    requires p.opcodeBase <= op && p.lineRange > 0
  {
    match Advance(s, Quot(op - p.opcodeBase, p.lineRange), p, 1, true)
    case Done(_, _, s1) => MoveLine(s1, ((op - p.opcodeBase) % p.lineRange + p.lineBase) * p.minInsnLength, 1, true)
    case r => r
  }

  /** One instruction, as run_debug_line_stmt executes it. */
  function Exec(stmts: seq<u8>, p: Prologue, ip: nat, s: States): (r: Outcome)
    requires ip < |stmts|
  {
    var op := stmts[ip];
    if op == 0 then
      match ReadU64(stmts[ip + 1..])
      case Truncated => Fail
      case Overflow => Panic
      case Value(size, n) =>
        if size < 1 then Fail else ExecExtended(stmts, s, ip + 1 + n, size, 1 + n + size)
    else if op == 1 then Done(1, true, s)
    else if op == 2 || op == 4 || op == 5 then WithOperand(stmts, ip, s, p, op)
    else if op == 3 then
      match ReadI64(stmts[ip + 1..])
      case Truncated => Fail
      case Overflow => Panic
      case Value(d, n) => MoveLine(s, d, 1 + n, false)
    else if op == 6 then Done(1, false, s.(isStmt := !s.isStmt))
    else if op == 7 then Done(1, false, s.(basicBlock := true))
    else if op == 8 then
      if p.lineRange == 0 then Panic else Advance(s, Quot(255 - p.opcodeBase, p.lineRange), p, 1, false)
    else if op == 9 then
      // the two operand bytes are read but not skipped
      if ip + 3 < |stmts| then Advance(s, Word(stmts[ip + 1..ip + 3]), p, 1, false) else Fail
    else if op == 10 then Done(1, false, s.(prologueEnd := true))
    else if op < p.opcodeBase || p.lineRange == 0 then Panic
    else ExecSpecial(op, p, s)
  }

  // ---------- the registers, changed in place ----------

  /** What run_debug_line_stmt returns: the size of the instruction and whether it emits a row. */
  datatype Stepped = Ran(size: nat, emit: bool) | Broken | Crashed

  /** A call returned `r` and left the registers at `s`, as the outcome `o` says. */
  predicate Matches(o: Outcome, r: Stepped, s: States) {
    match o
    case Done(size, emit, s1) => r == Ran(size, emit) && s == s1
    case Fail => r == Broken
    case Panic => r == Crashed
  }

  class DebugLineStates {
    var address: nat
    var file: nat
    var line: nat
    var column: nat
    var discriminator: nat
    var isStmt: bool
    var basicBlock: bool
    var endSequence: bool
    var prologueEnd: bool
    var shouldReset: bool

    function Current(): States
      reads this
    {
      States(address, file, line, column, discriminator, isStmt, basicBlock, endSequence, prologueEnd, shouldReset)
    }

    constructor (p: Prologue)
      ensures Current() == Initial(p)
    {
      address, file, line, column, discriminator := 0, 1, 1, 0, 0;
      isStmt, basicBlock, endSequence, prologueEnd, shouldReset := p.defaultIsStmt != 0, false, false, false, false;
    }

    method Reset(p: Prologue)
      modifies this
      ensures Current() == Initial(p)
    {
      address, file, line, column, discriminator := 0, 1, 1, 0, 0;
      isStmt, basicBlock, endSequence, prologueEnd, shouldReset := p.defaultIsStmt != 0, false, false, false, false;
    }

    method AdvanceAddress(adv: nat, p: Prologue, size: nat, emit: bool) returns (r: Stepped)
      modifies this
      ensures Matches(Advance(old(Current()), adv, p, size, emit), r, Current())
    {
      var step := adv * p.minInsnLength;
      if step >= TWO64 || address + step >= TWO64 {
        return Crashed;
      }
      address := address + step;
      return Ran(size, emit);
    }

    method AdvanceLine(d: int, size: nat, emit: bool) returns (r: Stepped)
      modifies this
      ensures Matches(MoveLine(old(Current()), d, size, emit), r, Current())
    {
      var l := ToI64(line) + d;
      if l < -TWO63 || l >= TWO63 {
        return Crashed;
      }
      line := l % TWO64;
      return Ran(size, emit);
    }

    /** The extended opcodes. */
    method RunExtended(stmts: seq<u8>, at: nat, size: nat, total: nat) returns (r: Stepped)
      modifies this
      ensures Matches(ExecExtended(stmts, old(Current()), at, size, total), r, Current())
    {
      if at >= |stmts| {
        return Crashed;
      }
      if stmts[at] == 1 {
        endSequence, shouldReset := true, true;
        return if total >= TWO64 then Crashed else Ran(total, true);
      }
      if stmts[at] == 2 {
        if size - 1 != 4 && size - 1 != 8 {
          return Broken;
        }
        if |stmts| - (at + 1) < size - 1 {
          return Crashed;
        }
        address := Word(stmts[at + 1..at + size]);
        return Ran(total, false);
      }
      if stmts[at] == 4 {
        match ReadU64(stmts[at + 1..]) {
        case Truncated => return Broken;
        case Overflow => return Crashed;
        case Value(d, n) =>
          if n + 1 != size {
            return Broken;
          }
          discriminator := d;
          return Ran(total, false);
        }
      }
      return Broken;
    }

    /** The standard opcodes with one unsigned operand. */
    method RunOperand(stmts: seq<u8>, ip: nat, p: Prologue, op: u8) returns (r: Stepped)
      requires ip < |stmts|
      modifies this
      ensures Matches(WithOperand(stmts, ip, old(Current()), p, op), r, Current())
    {
      match ReadU64(stmts[ip + 1..]) {
      case Truncated => return Broken;
      case Overflow => return Crashed;
      case Value(v, n) =>
        if op == 2 {
          r := AdvanceAddress(v, p, 1 + n, false);
        } else if op == 4 {
          file := v;
          r := Ran(1 + n, false);
        } else {
          column := v;
          r := Ran(1 + n, false);
        }
      }
    }

    method RunSpecial(op: u8, p: Prologue) returns (r: Stepped)
      requires p.opcodeBase <= op && p.lineRange > 0
      modifies this
      ensures Matches(ExecSpecial(op, p, old(Current())), r, Current())
    {
      var adjusted := op - p.opcodeBase;
      r := AdvanceAddress(Quot(adjusted, p.lineRange), p, 1, true);
      if r.Ran? {
        r := AdvanceLine((adjusted % p.lineRange + p.lineBase) * p.minInsnLength, 1, true);
      }
    }

    /** run_debug_line_stmt */
    method RunStmt(stmts: seq<u8>, p: Prologue, ip: nat) returns (r: Stepped)
      requires ip < |stmts|
      modifies this
      ensures Matches(Exec(stmts, p, ip, old(Current())), r, Current())
    {
      hide ExecExtended;
      hide ExecSpecial;
      hide WithOperand;
      hide Advance;
      hide MoveLine;
      hide ReadU64;
      hide ReadI64;
      var op := stmts[ip];
      match op
      case 0 =>
        match ReadU64(stmts[ip + 1..]) {
        case Truncated => return Broken;
        case Overflow => return Crashed;
        case Value(size, n) =>
          if size < 1 {
            return Broken;
          }
          r := RunExtended(stmts, ip + 1 + n, size, 1 + n + size);
        }
      case 1 => r := Ran(1, true);
      case 2 | 4 | 5 => r := RunOperand(stmts, ip, p, op);
      case 3 =>
        match ReadI64(stmts[ip + 1..]) {
        case Truncated => return Broken;
        case Overflow => return Crashed;
        case Value(d, n) => r := AdvanceLine(d, 1 + n, false);
        }
      case 6 =>
        isStmt := !isStmt;
        r := Ran(1, false);
      case 7 =>
        basicBlock := true;
        r := Ran(1, false);
      case 8 =>
        if p.lineRange == 0 {
          return Crashed;
        }
        r := AdvanceAddress(Quot(255 - p.opcodeBase, p.lineRange), p, 1, false);
      case 9 =>
        if ip + 3 >= |stmts| {
          return Broken;
        }
        r := AdvanceAddress(Word(stmts[ip + 1..ip + 3]), p, 1, false);
      case 10 =>
        prologueEnd := true;
        r := Ran(1, false);
      case _ =>
        if op < p.opcodeBase || p.lineRange == 0 {
          return Crashed;
        }
        r := RunSpecial(op, p);
    }
  }

  /** Every instruction makes progress, so the machine stops. */
  lemma ExecProgress(stmts: seq<u8>, p: Prologue, ip: nat, s: States)
    requires ip < |stmts|
    ensures Exec(stmts, p, ip, s).Done? ==> Exec(stmts, p, ip, s).size >= 1
  {
    hide ReadU64;
    hide ReadI64;
    hide Word;
    hide Quot;
  }

  datatype Run = Rows(rows: seq<States>) | Failed | Panicked

  function Prepend(rows: seq<States>, r: Run): Run { if r.Rows? then Rows(rows + r.rows) else r }

  /** What one instruction does: the driver below does not depend on how instructions are decoded. */
  type Insn = (nat, States) -> Outcome

  /** The instructions of a line-number program. */
  function Machine(stmts: seq<u8>, p: Prologue): Insn {
    (ip: nat, s: States) => if ip < |stmts| then Exec(stmts, p, ip, s) else Fail
  }

  /** The rows of a program of `n` bytes from `ip` on.  From the first row at address 0 to the end
      of its sequence rows are suppressed (`muted`). */
  function Trace(exec: Insn, n: nat, init: States, ip: nat, s: States, muted: bool): Run
    decreases n - ip
  {
    if ip >= n then Rows([]) else
    match exec(ip, s)
    case Fail => Failed
    case Panic => Panicked
    case Done(size, emit, s1) =>
      if size == 0 || ip + size >= TWO64 then Panicked else
      var m := muted || (emit && s1.address == 0);
      Prepend(if emit && !m then [s1] else [],
              if s1.shouldReset then Trace(exec, n, init, ip + size, init, false)
              else Trace(exec, n, init, ip + size, s1, m))
  }

  /** A queried address that calls for keeping `cur`, the row after `last`. */
  predicate Wants(a: int, last: States, cur: States) {
    a == cur.address || (last.address != 0 && !last.endSequence && last.address < a < cur.address)
  }

  /** The first wanted address. */
  function FirstWanted(addrs: seq<int>, last: States, cur: States): (r: Option<int>)
  {
    if addrs == [] then None
    else if Wants(addrs[0], last, cur) then Some(addrs[0])
    else FirstWanted(addrs[1..], last, cur)
  }

  /** The rows kept for one new row: the row before it if that is needed and was not kept, and itself. */
  function Kept(addrs: seq<int>, last: States, lastKept: bool, cur: States): seq<States> {
    match FirstWanted(addrs, last, cur)
    case None => []
    case Some(a) => (if !lastKept && a != cur.address then [last] else []) + [cur]
  }

  /** The rows kept for a set of queried addresses. */
  function Select(rows: seq<States>, addrs: seq<int>, last: States, lastKept: bool): seq<States> {
    if rows == [] then []
    else Kept(addrs, last, lastKept, rows[0])
         + Select(rows[1..], addrs, rows[0], FirstWanted(addrs, last, rows[0]).Some?)
  }

  /** What the caller gets: all rows, or those kept for the queried addresses. */
  function Answer(r: Run, addrs: seq<int>, last: States, lastKept: bool): Run {
    if r.Rows? && addrs != [] then Rows(Select(r.rows, addrs, last, lastKept)) else r
  }

  /** The inner loop of run_debug_line_stmts: the rows to push for `cur`. */
  method PushWanted(matrix: seq<States>, addrs: seq<int>, last: States, lastKept: bool, cur: States)
    returns (longer: seq<States>, pushed: bool)
    ensures longer == matrix + Kept(addrs, last, lastKept, cur)
    ensures pushed == FirstWanted(addrs, last, cur).Some?
  {
    longer, pushed := matrix, false;
    var i := 0;
    while i < |addrs|
      invariant 0 <= i <= |addrs| && longer == matrix && !pushed
      invariant FirstWanted(addrs, last, cur) == FirstWanted(addrs[i..], last, cur)
    {
      var a := addrs[i];
      assert addrs[i..][1..] == addrs[i + 1..];
      if a == cur.address || (last.address != 0 && !last.endSequence && a < cur.address && a > last.address) {
        if !lastKept && a != cur.address {
          longer := longer + [last];
        }
        longer := longer + [cur];
        return longer, true;
      }
      i := i + 1;
    }
  }

  /** Pushing a row: everything, or what the queried addresses call for. */
  method PushRow(matrix: seq<States>, addrs: seq<int>, last: States, lastKept: bool, cur: States)
    returns (longer: seq<States>, newLast: States, pushed: bool)
    ensures addrs == [] ==> longer == matrix + [cur] && newLast == last && pushed == lastKept
    ensures addrs != [] ==> longer == matrix + Kept(addrs, last, lastKept, cur) && newLast == cur
    ensures addrs != [] ==> pushed == FirstWanted(addrs, last, cur).Some?
  {
    if addrs != [] {
      longer, pushed := PushWanted(matrix, addrs, last, lastKept, cur);
      newLast := cur;
    } else {
      longer, newLast, pushed := matrix + [cur], last, lastKept;
    }
  }

  /** The state of the loop of run_debug_line_stmts, completed with the rows still to come. */
  ghost function Completed(matrix: seq<States>, rest: Run, addrs: seq<int>, last: States, lastKept: bool): Run {
    Prepend(matrix, Answer(rest, addrs, last, lastKept))
  }

  /** run_debug_line_stmts: one pass that executes, suppresses and selects does what executing
      the whole program and selecting afterwards does.  `shouldSort` never becomes true, so the
      rows are never sorted. */
  method RunStmts(stmts: seq<u8>, p: Prologue, addrs: seq<int>) returns (r: Run)
    ensures r == Answer(Trace(Machine(stmts, p), |stmts|, Initial(p), 0, Initial(p), false), addrs, Initial(p), false)
  {
    hide Exec;
    hide Answer;
    ghost var exec, n, init := Machine(stmts, p), |stmts|, Initial(p);
    var ip, matrix, shouldSort := 0, [], false;
    var states := new DebugLineStates(p);
    var last, lastPushed, noEmit := states.Current(), false, false;
    ghost var goal := Answer(Trace(exec, n, init, 0, init, false), addrs, init, false);
    CompletedStart(Trace(exec, n, init, 0, init, false), addrs, init);
    while ip < |stmts|
      invariant ip >= 0 && !shouldSort
      invariant addrs == [] ==> last == init
      invariant Completed(matrix, Trace(exec, n, init, ip, states.Current(), noEmit), addrs, last, lastPushed) == goal
      decreases n - ip
    {
      ghost var was, m0, n0, l0, k0 := states.Current(), matrix, noEmit, last, lastPushed;
      ExecProgress(stmts, p, ip, was);
      CompletedFails(m0, Trace(exec, n, init, ip, was, n0), addrs, l0, k0);
      var o := states.RunStmt(stmts, p, ip);
      if o.Crashed? || (o.Ran? && ip + o.size >= TWO64) {
        return Panicked;
      }
      if o.Broken? {
        return Failed;
      }
      ip := ip + o.size;
      var cur := states.Current();
      if o.emit {
        if cur.address == 0 {
          noEmit := true;
        }
        if !noEmit {
          matrix, last, lastPushed := PushRow(matrix, addrs, last, lastPushed, cur);
          if last.address > cur.address {
            shouldSort := true;
          }
        }
      }
      if states.shouldReset {
        states.Reset(p);
        noEmit := false;
      }
      ghost var row := if o.emit && !(n0 || cur.address == 0) then [cur] else [];
      CompletedStep(m0, row, Trace(exec, n, init, ip, states.Current(), noEmit), addrs, l0, k0);
    }
    CompletedEnd(matrix, addrs, last, lastPushed);
    return Rows(matrix);
  }

  lemma CompletedStart(rest: Run, addrs: seq<int>, last: States)
    ensures Completed([], rest, addrs, last, false) == Answer(rest, addrs, last, false)
  {
    var all := Answer(rest, addrs, last, false);
    if all.Rows? {
      assert [] + all.rows == all.rows;
    }
  }

  lemma CompletedEnd(matrix: seq<States>, addrs: seq<int>, last: States, lastKept: bool)
    ensures Completed(matrix, Rows([]), addrs, last, lastKept) == Rows(matrix)
  {
    assert matrix + [] == matrix;
  }

  lemma CompletedFails(matrix: seq<States>, rest: Run, addrs: seq<int>, last: States, lastKept: bool)
    ensures !rest.Rows? ==> Completed(matrix, rest, addrs, last, lastKept) == rest
  {
  }

  /** At most one more row moves from the rest to the matrix. */
  lemma CompletedStep(matrix: seq<States>, row: seq<States>, rest: Run, addrs: seq<int>, last: States, lastKept: bool)
    requires |row| <= 1
    ensures Completed(matrix, Prepend(row, rest), addrs, last, lastKept) ==
      if row == [] then Completed(matrix, rest, addrs, last, lastKept)
      else if addrs == [] then Completed(matrix + row, rest, addrs, last, lastKept)
      else Completed(matrix + Kept(addrs, last, lastKept, row[0]), rest, addrs, row[0],
                     FirstWanted(addrs, last, row[0]).Some?)
  {
    if rest.Rows? {
      if row == [] {
        assert [] + rest.rows == rest.rows;
      } else {
        assert (row + rest.rows)[0] == row[0] && (row + rest.rows)[1..] == rest.rows;
        assert (matrix + row) + rest.rows == matrix + (row + rest.rows);
        var kept := Kept(addrs, last, lastKept, row[0]);
        var more := Select(rest.rows, addrs, row[0], FirstWanted(addrs, last, row[0]).Some?);
        assert (matrix + kept) + more == matrix + (kept + more);
      }
    }
  }
}

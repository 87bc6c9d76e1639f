/**
  Whole line-number programs: the rows of the byte-coded machine against those
  of the reference interpreter, which clears the basic-block, prologue-end and
  discriminator registers after every row.
 */
module LineProgram {
  import opened Bytes
  import opened Leb128
  import opened LineMachine
  import opened LineReference

  /** The registers after an instruction: a sequence ends with its registers reset. */
  function Next(p: Prologue, r: Row, op: Op): Row
    requires Encodable(p, op)
  {
    if op.EndSequence? then InitialRow(p) else Step(p, r, op)
  }

  predicate AllEncodable(p: Prologue, ops: seq<Op>) { forall i :: 0 <= i < |ops| ==> Encodable(p, ops[i]) }

  /** The registers before instruction `i`. */
  function Before(p: Prologue, ops: seq<Op>, i: nat): Row
    requires AllEncodable(p, ops) && i <= |ops|
  {
    if i == 0 then InitialRow(p) else Next(p, Before(p, ops, i - 1), ops[i - 1])
  }

  /** The registers that instruction `i` leaves: a row, if it emits one. */
  function Made(p: Prologue, ops: seq<Op>, i: nat): Row
    requires AllEncodable(p, ops) && i < |ops|
  {
    Step(p, Before(p, ops, i), ops[i])
  }

  /** Every instruction is supported and no register leaves its range. */
  ghost predicate Runnable(p: Prologue, ops: seq<Op>) {
    && AllEncodable(p, ops) && (forall i :: 0 <= i < |ops| ==> Supported(p, ops[i]))
    && (forall i :: 0 <= i < |ops| ==> InRange(Made(p, ops, i)))
  }

  /** Where the sequence of instruction `i` starts, and where the previous row was made. */
  function SeqStart(ops: seq<Op>, i: nat): (r: nat)
    requires i <= |ops|
    ensures r <= i
  {
    if i == 0 || ops[i - 1].EndSequence? then i else SeqStart(ops, i - 1)
  }

  function RowStart(ops: seq<Op>, i: nat): (r: nat)
    requires i <= |ops|
    ensures SeqStart(ops, i) <= r <= i
  {
    if i == 0 || Emits(ops[i - 1]) then i else RowStart(ops, i - 1)
  }

  /** The flags set by the instructions from `lo` to `i`. */
  function FlagsSince(ops: seq<Op>, lo: nat, i: nat): Flags
    requires i <= |ops|
  {
    if i <= lo then CLEAR else SetFlags(FlagsSince(ops, lo, i - 1), ops[i - 1])
  }

  /** Instruction `i` makes a row at address 0. */
  predicate ZeroRow(p: Prologue, ops: seq<Op>, i: nat)
    requires AllEncodable(p, ops) && i < |ops|
  {
    Emits(ops[i]) && Made(p, ops, i).address == 0
  }

  /** A row at address 0 was made earlier in the sequence of instruction `i`. */
  ghost predicate Muted(p: Prologue, ops: seq<Op>, i: nat)
    requires AllEncodable(p, ops) && i <= |ops|
  {
    exists j: nat :: SeqStart(ops, i) <= j < i && ZeroRow(p, ops, j)
  }

  /** Instruction `i` makes a row, and no row of its sequence up to this one is at address 0. */
  ghost predicate Shown(p: Prologue, ops: seq<Op>, i: nat)
    requires AllEncodable(p, ops) && i < |ops|
  {
    Emits(ops[i]) && !Muted(p, ops, i) && !ZeroRow(p, ops, i)
  }

  datatype Full = Full(row: Row, flags: Flags)

  /** The row of instruction `i`: with the flags set since the previous row, as the standard clears them then,
      or with those set since the start of the sequence. */
  function RowAt(p: Prologue, ops: seq<Op>, i: nat, clears: bool): Full
    requires AllEncodable(p, ops) && i < |ops|
  {
    Full(Made(p, ops, i), FlagsSince(ops, if clears then RowStart(ops, i) else SeqStart(ops, i), i))
  }

  /** The shown rows from instruction `i` on. */
  ghost function RowsFrom(p: Prologue, ops: seq<Op>, i: nat, clears: bool): seq<Full>
    requires AllEncodable(p, ops) && i <= |ops|
    decreases |ops| - i
  {
    if i == |ops| then []
    else (if Shown(p, ops, i) then [RowAt(p, ops, i, clears)] else []) + RowsFrom(p, ops, i + 1, clears)
  }

  /** The encoding of the first `i` instructions. */
  function Encoded(p: Prologue, ops: seq<Op>, i: nat): seq<u8>
    requires AllEncodable(p, ops) && i <= |ops|
  {
    if i == 0 then [] else Encoded(p, ops, i - 1) + Encode(p, ops[i - 1])
  }

  function EncodeAll(p: Prologue, ops: seq<Op>): seq<u8>
    requires AllEncodable(p, ops)
  {
    Encoded(p, ops, |ops|)
  }

  lemma {:induction false} EncodedPrefix(p: Prologue, ops: seq<Op>, i: nat, n: nat)
    requires AllEncodable(p, ops) && i <= n <= |ops|
    ensures Encoded(p, ops, i) <= Encoded(p, ops, n)
  {
    hide Encode;
    hide Encodable;
    if i < n {
      EncodedPrefix(p, ops, i, n - 1);
    }
  }

  function FullOf(s: States): Full { Full(Registers(s), FlagsOf(s)) }

  function AllRows(rows: seq<States>): seq<Full> {
    if rows == [] then [] else [FullOf(rows[0])] + AllRows(rows[1..])
  }

  /** The machine stands before instruction `i`: it keeps its flags until the end of the sequence. */
  ghost predicate StandsAt(p: Prologue, ops: seq<Op>, i: nat, s: States, muted: bool)
    requires AllEncodable(p, ops) && i <= |ops|
  {
    && Registers(s) == Before(p, ops, i) && InRange(Registers(s)) && !s.shouldReset && !s.endSequence
    && FlagsOf(s) == FlagsSince(ops, SeqStart(ops, i), i) && muted == Muted(p, ops, i)
  }

  /** `exec` does what the encoding of a program at its position says. */
  ghost predicate Runs(exec: Insn, p: Prologue, stmts: seq<u8>) {
    forall pre: seq<u8>, op, rest: seq<u8>, s: States {:trigger pre + Encode(p, op) + rest, exec(|pre|, s)} ::
      (&& Supported(p, op) && InRange(Registers(s)) && InRange(Step(p, Registers(s), op))
       && stmts == pre + Encode(p, op) + rest) ==> Does(p, op, s, exec(|pre|, s))
  }

  lemma MachineRuns(p: Prologue, stmts: seq<u8>)
    ensures Runs(Machine(stmts, p), p, stmts)
  {
    forall pre: seq<u8>, op, rest: seq<u8>, s: States |
      && Supported(p, op) && InRange(Registers(s)) && InRange(Step(p, Registers(s), op))
      && stmts == pre + Encode(p, op) + rest
      ensures Does(p, op, s, Machine(stmts, p)(|pre|, s))
    {
      ExecutesIff(p, pre, op, rest, s);
    }
  }

  /** Where the machine goes on after an instruction, and whether rows are suppressed there. */
  function After(p: Prologue, o: States): States { if o.shouldReset then Initial(p) else o }

  /** One instruction takes the machine to the next. */
  lemma MachineStep(exec: Insn, p: Prologue, ops: seq<Op>, i: nat, s: States, muted: bool)
    requires Runnable(p, ops) && i < |ops| && StandsAt(p, ops, i, s, muted)
    requires Runs(exec, p, EncodeAll(p, ops))
    ensures
      var o := exec(|Encoded(p, ops, i)|, s);
      && Does(p, ops[i], s, o) && Registers(o.states) == Made(p, ops, i)
      && o.states.shouldReset == ops[i].EndSequence?
      && |Encoded(p, ops, i)| + o.size == |Encoded(p, ops, i + 1)| <= |EncodeAll(p, ops)|
      && StandsAt(p, ops, i + 1, After(p, o.states), (muted || ZeroRow(p, ops, i)) && !o.states.shouldReset)
      && (Shown(p, ops, i) <==> o.emit && !(muted || o.states.address == 0))
      && (Shown(p, ops, i) ==> FullOf(o.states) == RowAt(p, ops, i, false))
  {
    hide Encode;
    hide Supported;
    hide Encodable;
    var pre, stmts, op := Encoded(p, ops, i), EncodeAll(p, ops), ops[i];
    EncodedPrefix(p, ops, i + 1, |ops|);
    var rest := stmts[|pre + Encode(p, op)|..];
    assert stmts == pre + Encode(p, op) + rest;
    assert InRange(Made(p, ops, i));
    var o := exec(|pre|, s);
    assert Does(p, op, s, o);
    MutedStep(p, ops, i);
  }

  lemma MutedStep(p: Prologue, ops: seq<Op>, i: nat)
    requires AllEncodable(p, ops) && i < |ops|
    ensures Muted(p, ops, i + 1) <==> (Muted(p, ops, i) || ZeroRow(p, ops, i)) && !ops[i].EndSequence?
  {
    hide Encodable;
    hide ZeroRow;
    if !ops[i].EndSequence? {
      assert SeqStart(ops, i + 1) == SeqStart(ops, i);
    }
  }

  lemma {:induction false} TraceFrom(exec: Insn, p: Prologue, ops: seq<Op>, i: nat, s: States, muted: bool)
    requires Runnable(p, ops) && i <= |ops| && StandsAt(p, ops, i, s, muted)
    requires Runs(exec, p, EncodeAll(p, ops)) && |EncodeAll(p, ops)| < TWO64
    ensures
      var t := Trace(exec, |EncodeAll(p, ops)|, Initial(p), |Encoded(p, ops, i)|, s, muted);
      t.Rows? && AllRows(t.rows) == RowsFrom(p, ops, i, false)
    decreases |ops| - i
  {
    hide Encode;
    hide Supported;
    hide Encodable;
    if i < |ops| {
      var n, at := |EncodeAll(p, ops)|, |Encoded(p, ops, i)|;
      var o := exec(at, s);
      MachineStep(exec, p, ops, i, s, muted);
      hide StandsAt;
      hide Shown;
      hide Runs;
      hide Encoded;
      var m := muted || (o.emit && o.states.address == 0);
      TraceFrom(exec, p, ops, i + 1, After(p, o.states), m && !o.states.shouldReset);
      TraceStep(exec, n, Initial(p), at, s, muted);
    }
  }

  /** One instruction of the machine, in terms of rows. */
  lemma TraceStep(exec: Insn, n: nat, init: States, ip: nat, s: States, muted: bool)
    requires ip < n && exec(ip, s).Done?
    requires var o := exec(ip, s); 0 < o.size && ip + o.size < TWO64
    requires
      var o := exec(ip, s);
      var m := muted || (o.emit && o.states.address == 0);
      (if o.states.shouldReset then Trace(exec, n, init, ip + o.size, init, false)
       else Trace(exec, n, init, ip + o.size, o.states, m)).Rows?
    ensures
      var o := exec(ip, s);
      var m := muted || (o.emit && o.states.address == 0);
      var t := if o.states.shouldReset then Trace(exec, n, init, ip + o.size, init, false)
               else Trace(exec, n, init, ip + o.size, o.states, m);
      var all := Trace(exec, n, init, ip, s, muted);
      all.Rows? && AllRows(all.rows) == (if o.emit && !m then [FullOf(o.states)] else []) + AllRows(t.rows)
  {
    var o := exec(ip, s);
    var m := muted || (o.emit && o.states.address == 0);
    var t := if o.states.shouldReset then Trace(exec, n, init, ip + o.size, init, false)
             else Trace(exec, n, init, ip + o.size, o.states, m);
    assert ([o.states] + t.rows)[1..] == t.rows;
    assert [] + t.rows == t.rows && [] + AllRows(t.rows) == AllRows(t.rows);
  }

  /** What the machine makes of the encoding of a program. */
  function MachineRows(p: Prologue, ops: seq<Op>): Run
    requires AllEncodable(p, ops)
  {
    var stmts := EncodeAll(p, ops);
    Trace(Machine(stmts, p), |stmts|, Initial(p), 0, Initial(p), false)
  }

  /** Running the machine on the encoding of a program yields its rows, except for those of sequences from
      address 0 on, with the flags set since the start of their sequence. */
  lemma MachineKeepsFlags(p: Prologue, ops: seq<Op>)
    requires Runnable(p, ops) && |EncodeAll(p, ops)| < TWO64
    ensures MachineRows(p, ops).Rows? && AllRows(MachineRows(p, ops).rows) == RowsFrom(p, ops, 0, false)
  {
    var stmts := EncodeAll(p, ops);
    MachineRuns(p, stmts);
    assert StandsAt(p, ops, 0, Initial(p), false);
    TraceFrom(Machine(stmts, p), p, ops, 0, Initial(p), false);
  }

  function Bare(rows: seq<Full>): seq<Row> { seq(|rows|, i requires 0 <= i < |rows| => rows[i].row) }

  /** Up to these flags the rows are those of the reference interpreter. */
  lemma MachineMeetsReference(p: Prologue, ops: seq<Op>)
    requires Runnable(p, ops) && |EncodeAll(p, ops)| < TWO64
    ensures MachineRows(p, ops).Rows?
    ensures Bare(AllRows(MachineRows(p, ops).rows)) == Bare(RowsFrom(p, ops, 0, true))
  {
    MachineKeepsFlags(p, ops);
    RowsAlike(p, ops, 0);
  }

  // ---------- flags that outlive their row ----------

  /** Instruction `j` sets a flag for an earlier row of the sequence of row `i`, and since then it is not set anew. */
  predicate Stale(ops: seq<Op>, i: nat, j: nat)
    requires i < |ops|
  {
    SeqStart(ops, i) <= j < RowStart(ops, i) &&
    match ops[j]
    case SetBasicBlock => forall k :: RowStart(ops, i) <= k < i ==> !ops[k].SetBasicBlock?
    case SetPrologueEnd => forall k :: RowStart(ops, i) <= k < i ==> !ops[k].SetPrologueEnd?
    case SetDiscriminator(n, _, _) => n != 0 && LastSet(ops, j, i)
    case _ => false
  }

  /** Instruction `j` is the last before `i` that sets the discriminator. */
  predicate LastSet(ops: seq<Op>, j: nat, i: nat)
    requires i <= |ops|
  {
    j < i && ops[j].SetDiscriminator? && forall k :: j < k < i ==> !ops[k].SetDiscriminator?
  }

  lemma {:induction false} BlockRaised(ops: seq<Op>, lo: nat, i: nat)
    requires i <= |ops|
    ensures FlagsSince(ops, lo, i).basicBlock <==> exists j :: lo <= j < i && ops[j].SetBasicBlock?
    ensures FlagsSince(ops, lo, i).prologueEnd <==> exists j :: lo <= j < i && ops[j].SetPrologueEnd?
  {
    if lo < i {
      BlockRaised(ops, lo, i - 1);
      assert ops[i - 1].SetBasicBlock? ==> FlagsSince(ops, lo, i).basicBlock;
      assert ops[i - 1].SetPrologueEnd? ==> FlagsSince(ops, lo, i).prologueEnd;
    }
  }

  /** The discriminator is that of the last instruction that sets it. */
  lemma {:induction false} DiscriminatorSet(ops: seq<Op>, lo: nat, i: nat, j: nat)
    requires lo <= j < i <= |ops| && LastSet(ops, j, i)
    ensures FlagsSince(ops, lo, i).discriminator == ops[j].n
  {
    if j < i - 1 {
      DiscriminatorSet(ops, lo, i - 1, j);
    }
  }

  lemma {:induction false} DiscriminatorUnset(ops: seq<Op>, lo: nat, i: nat)
    requires i <= |ops| && forall k :: lo <= k < i ==> !ops[k].SetDiscriminator?
    ensures FlagsSince(ops, lo, i).discriminator == 0
  {
    if lo < i {
      DiscriminatorUnset(ops, lo, i - 1);
    }
  }

  lemma {:induction false} LastDiscriminator(ops: seq<Op>, lo: nat, i: nat) returns (j: nat)
    requires lo <= i <= |ops| && exists k :: lo <= k < i && ops[k].SetDiscriminator?
    ensures lo <= j && LastSet(ops, j, i)
  {
    if ops[i - 1].SetDiscriminator? {
      j := i - 1;
    } else {
      j := LastDiscriminator(ops, lo, i - 1);
    }
  }

  /** The flags of row `i` are those of the standard if and only if none of them is stale. */
  lemma FlagsAgreeIff(ops: seq<Op>, i: nat)
    requires i < |ops|
    ensures FlagsSince(ops, SeqStart(ops, i), i) == FlagsSince(ops, RowStart(ops, i), i)
      <==> forall j: nat :: !Stale(ops, i, j)
  {
    hide SeqStart;
    hide RowStart;
    BlocksAgreeIff(ops, i);
    DiscriminatorsAgreeIff(ops, i);
  }

  lemma BlocksAgreeIff(ops: seq<Op>, i: nat)
    requires i < |ops|
    ensures
      var kept, cleared := FlagsSince(ops, SeqStart(ops, i), i), FlagsSince(ops, RowStart(ops, i), i);
      (kept.basicBlock == cleared.basicBlock && kept.prologueEnd == cleared.prologueEnd)
      <==> forall j: nat :: Stale(ops, i, j) ==> ops[j].SetDiscriminator?
  {
    var lo, mid := SeqStart(ops, i), RowStart(ops, i);
    BlockRaised(ops, lo, i);
    BlockRaised(ops, mid, i);
    hide FlagsSince;
    if exists k :: lo <= k < i && ops[k].SetBasicBlock? {
      var k :| lo <= k < i && ops[k].SetBasicBlock?;
      assert Stale(ops, i, k) || exists k' :: mid <= k' < i && ops[k'].SetBasicBlock?;
    }
    if exists k :: lo <= k < i && ops[k].SetPrologueEnd? {
      var k :| lo <= k < i && ops[k].SetPrologueEnd?;
      assert Stale(ops, i, k) || exists k' :: mid <= k' < i && ops[k'].SetPrologueEnd?;
    }
  }

  lemma DiscriminatorsAgreeIff(ops: seq<Op>, i: nat)
    requires i < |ops|
    ensures FlagsSince(ops, SeqStart(ops, i), i).discriminator == FlagsSince(ops, RowStart(ops, i), i).discriminator
      <==> forall j: nat :: Stale(ops, i, j) ==> !ops[j].SetDiscriminator?
  {
    var lo, mid := SeqStart(ops, i), RowStart(ops, i);
    hide SeqStart;
    hide RowStart;
    if exists k :: lo <= k < i && ops[k].SetDiscriminator? {
      var j := LastDiscriminator(ops, lo, i);
      DiscriminatorSet(ops, lo, i, j);
      if mid <= j {
        DiscriminatorSet(ops, mid, i, j);
        hide FlagsSince;
      } else {
        DiscriminatorUnset(ops, mid, i);
        hide FlagsSince;
        OneIsLast(ops, i, j);
      }
    } else {
      DiscriminatorUnset(ops, lo, i);
      DiscriminatorUnset(ops, mid, i);
      hide FlagsSince;
    }
  }

  lemma OneIsLast(ops: seq<Op>, i: nat, j: nat)
    requires i < |ops| && SeqStart(ops, i) <= j < RowStart(ops, i) && LastSet(ops, j, i)
    ensures (forall k: nat :: Stale(ops, i, k) ==> !ops[k].SetDiscriminator?) <==> ops[j].n == 0
  {
    hide SeqStart;
    hide RowStart;
    assert Stale(ops, i, j) <==> ops[j].n != 0;
  }

  /** Both readings make the same rows; their flags agree where they agree row by row. */
  lemma {:induction false} RowsAlike(p: Prologue, ops: seq<Op>, i: nat)
    requires AllEncodable(p, ops) && i <= |ops|
    ensures Bare(RowsFrom(p, ops, i, false)) == Bare(RowsFrom(p, ops, i, true))
    ensures RowsFrom(p, ops, i, false) == RowsFrom(p, ops, i, true) <==>
      forall k: nat :: i <= k < |ops| && Shown(p, ops, k) ==> RowAt(p, ops, k, false) == RowAt(p, ops, k, true)
    decreases |ops| - i
  {
    if i < |ops| {
      RowsAlike(p, ops, i + 1);
      hide Shown;
      hide Encodable;
      hide RowAt;
      var kept, cleared := RowsFrom(p, ops, i + 1, false), RowsFrom(p, ops, i + 1, true);
      RowAtAlike(p, ops, i);
      HeadsAlike(RowAt(p, ops, i, false), kept, RowAt(p, ops, i, true), cleared);
      assert [] + kept == kept && [] + cleared == cleared;
    }
  }

  lemma RowAtAlike(p: Prologue, ops: seq<Op>, i: nat)
    requires AllEncodable(p, ops) && i < |ops|
    ensures RowAt(p, ops, i, false).row == RowAt(p, ops, i, true).row
  {
  }

  lemma HeadsAlike(a: Full, ra: seq<Full>, b: Full, rb: seq<Full>)
    requires a.row == b.row && Bare(ra) == Bare(rb)
    ensures Bare([a] + ra) == Bare([b] + rb)
    ensures [a] + ra == [b] + rb <==> a == b && ra == rb
  {
    assert Bare([a] + ra) == [a.row] + Bare(ra) && Bare([b] + rb) == [b.row] + Bare(rb);
    assert ([a] + ra)[0] == a && ([b] + rb)[0] == b && ([a] + ra)[1..] == ra && ([b] + rb)[1..] == rb;
  }

  /** The rows of the machine are those of the standard, flags included, if and only if no flag is stale at
      a shown row: the machine does not clear its flags after a row. */
  lemma MachineIsExactIff(p: Prologue, ops: seq<Op>)
    requires Runnable(p, ops) && |EncodeAll(p, ops)| < TWO64
    ensures MachineRows(p, ops).Rows?
    ensures AllRows(MachineRows(p, ops).rows) == RowsFrom(p, ops, 0, true) <==>
      forall i: nat, j: nat :: i < |ops| && Shown(p, ops, i) ==> !Stale(ops, i, j)
  {
    MachineKeepsFlags(p, ops);
    RowsAlike(p, ops, 0);
    hide Shown;
    hide Stale;
    hide Encodable;
    forall i: nat | i < |ops|
      ensures RowAt(p, ops, i, false) == RowAt(p, ops, i, true) <==> forall j: nat :: !Stale(ops, i, j)
    {
      FlagsAgreeIff(ops, i);
    }
  }

  const FLAGGED: seq<Op> := [SetAddress(8, 8, 1), SetBasicBlock, Copy, Copy]

  /** A basic block that begins at the first row is still reported at the second. */
  lemma FlagStays(p: Prologue)
    requires p.opcodeBase > 7
    ensures Runnable(p, FLAGGED) && |EncodeAll(p, FLAGGED)| < TWO64 && MachineRows(p, FLAGGED).Rows?
    ensures AllRows(MachineRows(p, FLAGGED).rows) != RowsFrom(p, FLAGGED, 0, true)
  {
    FlaggedRuns(p);
    MachineIsExactIff(p, FLAGGED);
    hide RowsFrom;
    hide MachineRows;
    hide Encode;
    hide Encodable;
    hide Encoded;
    assert SeqStart(FLAGGED, 3) == 0 by {
      assert SeqStart(FLAGGED, 1) == 0 && SeqStart(FLAGGED, 2) == 0;
    }
    assert RowStart(FLAGGED, 3) == 3;
    assert Stale(FLAGGED, 3, 1);
    assert Shown(p, FLAGGED, 3);
  }

  lemma FlaggedRuns(p: Prologue)
    requires p.opcodeBase > 7
    ensures Runnable(p, FLAGGED) && |EncodeAll(p, FLAGGED)| < TWO64
    ensures forall i :: 0 <= i < 4 ==> Made(p, FLAGGED, i).address == 8
  {
    Pow2Is64();
    assert Pow2(7) == 128 by { Pow2Seven(0); }
    assert AllEncodable(p, FLAGGED);
    FlaggedRows(p);
    FlaggedSize(p);
  }

  lemma FlaggedSize(p: Prologue)
    requires AllEncodable(p, FLAGGED)
    ensures |EncodeAll(p, FLAGGED)| == 14
  {
    hide Pow2;
    hide EncodeU;
    hide Encodable;
    assert |Encoded(p, FLAGGED, 1)| == 11;
    assert |Encoded(p, FLAGGED, 2)| == 12;
    assert |Encoded(p, FLAGGED, 3)| == 13;
  }

  lemma FlaggedRows(p: Prologue)
    requires AllEncodable(p, FLAGGED)
    ensures forall i :: 0 <= i < 4 ==> Made(p, FLAGGED, i).address == 8 && Made(p, FLAGGED, i).line == 1
  {
    hide Encodable;
    var r := InitialRow(p).(address := 8);
    assert Before(p, FLAGGED, 1) == r;
    assert Before(p, FLAGGED, 2) == r;
    assert Before(p, FLAGGED, 3) == r;
    assert Made(p, FLAGGED, 0) == r && Made(p, FLAGGED, 1) == r && Made(p, FLAGGED, 2) == r && Made(p, FLAGGED, 3) == r;
  }
}

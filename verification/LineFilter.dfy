/**
  Looking up addresses in the rows kept for them gives the answers of the full
  matrix, exactly for the addresses that the kept rows cover.
 */
module LineFilter {
  import opened Wrappers
  import opened LineMachine
  import opened Search

  /** Rows in order of address, none at address 0. */
  ghost predicate NonDecreasing(rows: seq<States>) {
    && (forall i :: 0 <= i < |rows| ==> rows[i].address > 0)
    && (forall i, j :: 0 <= i < j < |rows| ==> rows[i].address <= rows[j].address)
  }

  /** No two rows at the same address. */
  ghost predicate Distinct(rows: seq<States>) {
    forall i, j :: 0 <= i < j < |rows| ==> rows[i].address != rows[j].address
  }

  ghost predicate Ascending(addrs: seq<int>) { forall i, j :: 0 <= i < j < |addrs| ==> addrs[i] <= addrs[j] }

  /** The row before row `j`: the initial registers before the first. */
  function Before(rows: seq<States>, init: States, j: int): States
    requires 0 <= j <= |rows|
  {
    if j == 0 then init else rows[j - 1]
  }

  /** A queried address strictly between a row and its successor, which is not the end of a sequence. */
  ghost predicate Between(addrs: seq<int>, last: States, cur: States) {
    exists a :: a in addrs && last.address != 0 && !last.endSequence && last.address < a < cur.address
  }

  /** Row `j` is needed: its address is queried, or a queried address lies between it and a neighbour. */
  ghost predicate Needed(rows: seq<States>, addrs: seq<int>, init: States, j: int)
    requires 0 <= j < |rows|
  {
    || rows[j].address in addrs
    || Between(addrs, Before(rows, init, j), rows[j])
    || (j + 1 < |rows| && Between(addrs, rows[j], rows[j + 1]))
  }

  /** The needed rows from row `j` on, in order. */
  ghost function NeededRows(rows: seq<States>, addrs: seq<int>, init: States, j: int): seq<States>
    requires 0 <= j <= |rows|
    decreases |rows| - j
  {
    if j == |rows| then []
    else (if Needed(rows, addrs, init, j) then [rows[j]] else []) + NeededRows(rows, addrs, init, j + 1)
  }

  lemma {:induction false} FirstWantedMeans(addrs: seq<int>, last: States, cur: States)
    requires Ascending(addrs)
    ensures FirstWanted(addrs, last, cur).Some? <==> cur.address in addrs || Between(addrs, last, cur)
    ensures FirstWanted(addrs, last, cur).Some? && FirstWanted(addrs, last, cur).value != cur.address <==>
            Between(addrs, last, cur)
  {
    if addrs != [] {
      var first, rest := addrs[0], addrs[1..];
      assert addrs == [first] + rest;
      if Wants(first, last, cur) {
        assert first in addrs;
        assert first == cur.address ==> forall a :: a in addrs ==> a >= cur.address;
      } else {
        FirstWantedMeans(rest, last, cur);
        if Between(rest, last, cur) {
          var a :| a in rest && last.address != 0 && !last.endSequence && last.address < a < cur.address;
          assert a in addrs;
        }
      }
    }
  }

  /** Selecting from row `j` on: the needed rows, after the previous row if that is needed now
      and was not kept before. */
  lemma {:induction false} SelectFrom(rows: seq<States>, addrs: seq<int>, init: States, j: int, kept: bool)
    requires Ascending(addrs) && init.address == 0 && 0 <= j <= |rows|
    requires j > 0 ==> kept == (rows[j - 1].address in addrs || Between(addrs, Before(rows, init, j - 1), rows[j - 1]))
    ensures Select(rows[j..], addrs, Before(rows, init, j), kept) ==
      (if 0 < j < |rows| && !kept && Between(addrs, rows[j - 1], rows[j]) then [rows[j - 1]] else [])
      + NeededRows(rows, addrs, init, j)
    decreases |rows| - j
  {
    if j < |rows| {
      var last, cur := Before(rows, init, j), rows[j];
      FirstWantedMeans(addrs, last, cur);
      assert rows[j..][0] == cur && rows[j..][1..] == rows[j + 1..];
      SelectFrom(rows, addrs, init, j + 1, FirstWanted(addrs, last, cur).Some?);
    }
  }

  /** The rows kept for a set of addresses are exactly the needed rows, each once, in order. */
  lemma SelectIsNeeded(rows: seq<States>, addrs: seq<int>, init: States)
    requires Ascending(addrs) && init.address == 0
    ensures Select(rows, addrs, init, false) == NeededRows(rows, addrs, init, 0)
  {
    assert rows[0..] == rows;
    SelectFrom(rows, addrs, init, 0, false);
  }

  // ---------- looking up ----------

  /** The last row at or below an address. */
  function Below(rows: seq<States>, a: int): Option<States> {
    if rows == [] then None
    else if rows[|rows| - 1].address <= a then Some(rows[|rows| - 1])
    else Below(rows[..|rows| - 1], a)
  }

  /** The row that answers for an address: none when a sequence has ended there. */
  function Found(r: Option<States>): Option<States> { if r.Some? && r.value.endSequence then None else r }

  ghost predicate AtRow(rows: seq<States>, a: int) { exists s :: s in rows && s.address == a }

  /** A right answer: that of some row at the address, or of the last row below it when there is none there. */
  ghost predicate Answers(rows: seq<States>, a: int, r: Option<States>) {
    if AtRow(rows, a) then exists s :: s in rows && s.address == a && r == Found(Some(s))
    else r == Found(Below(rows, a))
  }

  /** Among distinct addresses there is one right answer. */
  lemma OneAnswer(rows: seq<States>, a: int, r: Option<States>)
    requires NonDecreasing(rows) && Distinct(rows)
    ensures Answers(rows, a, r) <==> r == Found(Below(rows, a))
  {
    if AtRow(rows, a) {
      var s :| s in rows && s.address == a;
      var i :| 0 <= i < |rows| && rows[i] == s;
      assert forall t :: t in rows && t.address == a ==> t == s;
      BelowIs(rows, a, i);
    }
  }

  /** DebugLineCU::find_line, up to turning the row into strings. */
  method FindLine(rows: seq<States>, a: int) returns (r: Option<States>)
    ensures r.Some? ==> r.value in rows && !r.value.endSequence
    ensures NonDecreasing(rows) ==> Answers(rows, a, r)
    ensures NonDecreasing(rows) && Distinct(rows) ==> r == Found(Below(rows, a))
  {
    var idx := SearchAddressKey(rows, a, (s: States) => s.address);
    if NonDecreasing(rows) {
      if idx == None || rows[idx.value].address != a {
        BelowIs(rows, a, if idx == None then -1 else idx.value);
      }
      if Distinct(rows) {
        OneAnswer(rows, a, Found(if idx == None then None else Some(rows[idx.value])));
      }
    }
    if idx == None {
      return None;
    }
    var states := rows[idx.value];
    if states.endSequence {
      return None;
    }
    return Some(states);
  }

  lemma {:induction false} BelowIs(rows: seq<States>, a: int, i: int)
    requires -1 <= i < |rows|
    requires i >= 0 ==> rows[i].address <= a
    requires forall j :: i < j < |rows| ==> a < rows[j].address
    ensures Below(rows, a) == if i < 0 then None else Some(rows[i])
  {
    if i < |rows| - 1 {
      assert rows[|rows| - 1].address > a;
      BelowIs(rows[..|rows| - 1], a, i);
    }
  }

  /** The index of the last row at or below an address; -1 when there is none. */
  function IndexBelow(rows: seq<States>, a: int, n: int): (i: int)
    requires 0 <= n <= |rows|
    ensures -1 <= i < n && (i >= 0 ==> rows[i].address <= a)
    ensures forall j :: i < j < n ==> a < rows[j].address
    decreases n
  {
    if n == 0 then -1 else if rows[n - 1].address <= a then n - 1 else IndexBelow(rows, a, n - 1)
  }

  /** The last needed row before row `n`; -1 when there is none. */
  ghost function LastNeeded(rows: seq<States>, addrs: seq<int>, init: States, n: int): (i: int)
    requires 0 <= n <= |rows|
    ensures -1 <= i < n && (i >= 0 ==> Needed(rows, addrs, init, i))
    ensures forall j :: i < j < n ==> !Needed(rows, addrs, init, j)
    decreases n
  {
    if n == 0 then -1 else if Needed(rows, addrs, init, n - 1) then n - 1 else LastNeeded(rows, addrs, init, n - 1)
  }

  /** The needed rows in the window from row `j` to row `n`. */
  ghost function NeededIn(rows: seq<States>, addrs: seq<int>, init: States, j: int, n: int): seq<States>
    requires 0 <= j <= n <= |rows|
    decreases n - j
  {
    if j == n then []
    else NeededIn(rows, addrs, init, j, n - 1) + (if Needed(rows, addrs, init, n - 1) then [rows[n - 1]] else [])
  }

  lemma {:induction false} NeededSplit(rows: seq<States>, addrs: seq<int>, init: States, j: int)
    requires 0 <= j <= |rows|
    ensures NeededRows(rows, addrs, init, 0) == NeededIn(rows, addrs, init, 0, j) + NeededRows(rows, addrs, init, j)
  {
    if j > 0 {
      NeededSplit(rows, addrs, init, j - 1);
    }
  }

  lemma {:induction false} BelowNeeded(rows: seq<States>, addrs: seq<int>, init: States, a: int, n: int)
    requires NonDecreasing(rows) && 0 <= n <= |rows|
    requires forall i :: n <= i < |rows| ==> a < rows[i].address
    ensures Below(NeededIn(rows, addrs, init, 0, n), a) ==
      var i := LastNeeded(rows, addrs, init, IndexBelow(rows, a, n) + 1);
      if i < 0 then None else Some(rows[i])
    decreases n
  {
    if n > 0 {
      var kept := NeededIn(rows, addrs, init, 0, n);
      if rows[n - 1].address <= a {
        LastNeededRow(rows, addrs, init, a, n);
      } else {
        BelowNeeded(rows, addrs, init, a, n - 1);
        if Needed(rows, addrs, init, n - 1) {
          assert kept[..|kept| - 1] == NeededIn(rows, addrs, init, 0, n - 1);
        } else {
          assert kept == NeededIn(rows, addrs, init, 0, n - 1);
        }
      }
    }
  }

  /** When all of the first `n` rows are at or below the address, the last needed one answers. */
  lemma {:induction false} LastNeededRow(rows: seq<States>, addrs: seq<int>, init: States, a: int, n: int)
    requires NonDecreasing(rows) && 0 <= n <= |rows| && (n > 0 ==> rows[n - 1].address <= a)
    ensures Below(NeededIn(rows, addrs, init, 0, n), a) ==
      var i := LastNeeded(rows, addrs, init, n);
      if i < 0 then None else Some(rows[i])
    decreases n
  {
    if n > 0 && !Needed(rows, addrs, init, n - 1) {
      LastNeededRow(rows, addrs, init, a, n - 1);
      assert NeededIn(rows, addrs, init, 0, n) == NeededIn(rows, addrs, init, 0, n - 1);
    }
  }

  /** What the kept rows answer: the last needed row at or below the address. */
  lemma SelectedAnswer(rows: seq<States>, addrs: seq<int>, init: States, a: int)
    requires NonDecreasing(rows) && Ascending(addrs) && init.address == 0
    ensures Below(Select(rows, addrs, init, false), a) ==
      var i := LastNeeded(rows, addrs, init, IndexBelow(rows, a, |rows|) + 1);
      if i < 0 then None else Some(rows[i])
  {
    SelectIsNeeded(rows, addrs, init);
    NeededSplit(rows, addrs, init, |rows|);
    var all := NeededIn(rows, addrs, init, 0, |rows|);
    assert all + [] == all;
    BelowNeeded(rows, addrs, init, a, |rows|);
  }

  lemma FullAnswer(rows: seq<States>, a: int)
    ensures
      var i := IndexBelow(rows, a, |rows|);
      Below(rows, a) == if i < 0 then None else Some(rows[i])
  {
    BelowIs(rows, a, IndexBelow(rows, a, |rows|));
  }

  /** Exactly when the last row at or below an address is the same among the kept rows: it is kept, or the last
      kept row before it is equal to it, or both end a sequence, or there is no row below the address. */
  lemma AnswersAgreeIff(rows: seq<States>, addrs: seq<int>, init: States, a: int)
    requires NonDecreasing(rows) && Ascending(addrs) && init.address == 0
    ensures
      var j := IndexBelow(rows, a, |rows|);
      var i := LastNeeded(rows, addrs, init, j + 1);
      Found(Below(Select(rows, addrs, init, false), a)) == Found(Below(rows, a))
      <==> (j < 0 || (i >= 0 && rows[i] == rows[j]) || (rows[j].endSequence && (i < 0 || rows[i].endSequence)))
  {
    SelectedAnswer(rows, addrs, init, a);
    FullAnswer(rows, a);
  }

  /** The address is that of a row, or lies between a row and its successor in the same sequence. */
  ghost predicate Covered(rows: seq<States>, a: int) {
    exists j :: 0 <= j < |rows| && (a == rows[j].address ||
      (j + 1 < |rows| && !rows[j].endSequence && rows[j].address < a < rows[j + 1].address))
  }

  /** The row below a queried address inside a sequence is needed. */
  lemma CoveredIsNeeded(rows: seq<States>, addrs: seq<int>, init: States, a: int)
    requires NonDecreasing(rows) && a in addrs && Covered(rows, a)
    ensures
      var j := IndexBelow(rows, a, |rows|);
      j >= 0 && Needed(rows, addrs, init, j)
  {
    var j :| 0 <= j < |rows| && (a == rows[j].address ||
      (j + 1 < |rows| && !rows[j].endSequence && rows[j].address < a < rows[j + 1].address));
    var i := IndexBelow(rows, a, |rows|);
    assert i >= j;
    if a == rows[j].address {
      assert rows[i].address == a;
    } else {
      assert i == j;
    }
  }

  /** The kept rows are the needed ones. */
  lemma {:induction false} NeededMember(rows: seq<States>, addrs: seq<int>, init: States, j: int, s: States)
    requires 0 <= j <= |rows|
    ensures s in NeededRows(rows, addrs, init, j) <==>
      exists k :: j <= k < |rows| && Needed(rows, addrs, init, k) && rows[k] == s
    decreases |rows| - j
  {
    if j < |rows| {
      hide Needed;
      NeededMember(rows, addrs, init, j + 1, s);
    }
  }

  /** At a queried address the same rows are found among the kept rows. */
  lemma KeptAtQuery(rows: seq<States>, addrs: seq<int>, init: States, a: int, s: States)
    requires Ascending(addrs) && init.address == 0
    ensures s in Select(rows, addrs, init, false) ==> s in rows
    ensures a in addrs && s.address == a ==> (s in Select(rows, addrs, init, false) <==> s in rows)
  {
    hide Select;
    SelectIsNeeded(rows, addrs, init);
    NeededMember(rows, addrs, init, 0, s);
  }

  /** Every queried address inside a sequence has the right answers of the full matrix: if there are rows at
      the address these, else the last row below it. */
  lemma QueriesAnsweredAlike(rows: seq<States>, addrs: seq<int>, init: States, a: int)
    requires NonDecreasing(rows) && Ascending(addrs) && init.address == 0
    requires a in addrs && Covered(rows, a)
    ensures Found(Below(Select(rows, addrs, init, false), a)) == Found(Below(rows, a))
    ensures forall r :: Answers(Select(rows, addrs, init, false), a, r) <==> Answers(rows, a, r)
  {
    hide Select;
    hide Below;
    hide Needed;
    hide IndexBelow;
    CoveredIsNeeded(rows, addrs, init, a);
    AnswersAgreeIff(rows, addrs, init, a);
    forall s
      ensures s in Select(rows, addrs, init, false) ==> s in rows
      ensures s.address == a ==> (s in Select(rows, addrs, init, false) <==> s in rows)
    {
      KeptAtQuery(rows, addrs, init, a, s);
    }
  }

  // ---------- the machine's rows ----------

  ghost predicate NonZero(rows: seq<States>) { forall i :: 0 <= i < |rows| ==> rows[i].address > 0 }

  lemma NonZeroAppend(a: seq<States>, b: seq<States>)
    requires NonZero(a) && NonZero(b)
    ensures NonZero(a + b)
  {
  }

  /** The machine never emits a row at address 0. */
  lemma {:induction false} TraceNonZero(exec: Insn, n: nat, init: States, ip: nat, s: States, muted: bool)
    ensures
      var t := Trace(exec, n, init, ip, s, muted);
      t.Rows? ==> NonZero(t.rows)
    decreases n - ip
  {
    if ip < n && exec(ip, s).Done? && exec(ip, s).size > 0 {
      var o := exec(ip, s);
      var m := muted || (o.emit && o.states.address == 0);
      var first := if o.emit && !m then [o.states] else [];
      var later := if o.states.shouldReset then Trace(exec, n, init, ip + o.size, init, false)
                   else Trace(exec, n, init, ip + o.size, o.states, m);
      if o.states.shouldReset {
        TraceNonZero(exec, n, init, ip + o.size, init, false);
      } else {
        TraceNonZero(exec, n, init, ip + o.size, o.states, m);
      }
      if later.Rows? {
        NonZeroAppend(first, later.rows);
      }
    }
  }

  /** Loading only what is needed for a list of addresses: whenever the program runs to its end and its
      rows are in order, each queried address inside a sequence is found as in the full matrix. */
  lemma FilteredRunAnswersAlike(exec: Insn, n: nat, init: States, addrs: seq<int>, a: int)
    requires init.address == 0 && Ascending(addrs) && a in addrs
    requires Trace(exec, n, init, 0, init, false).Rows?
    requires
      var rows := Trace(exec, n, init, 0, init, false).rows;
      (forall i, j :: 0 <= i < j < |rows| ==> rows[i].address <= rows[j].address) && Covered(rows, a)
    ensures
      var full := Trace(exec, n, init, 0, init, false);
      var some := Answer(full, addrs, init, false);
      && some.Rows? && Found(Below(some.rows, a)) == Found(Below(full.rows, a))
      && forall r :: Answers(some.rows, a, r) <==> Answers(full.rows, a, r)
  {
    TraceNonZero(exec, n, init, 0, init, false);
    QueriesAnsweredAlike(Trace(exec, n, init, 0, init, false).rows, addrs, init, a);
  }

  /** A query beyond the end of a sequence: the kept rows answer, the full matrix does not. */
  lemma GapQueryDiffers(init: States)
    requires init.address == 0
    ensures
      var row := init.(endSequence := false);
      var rows := [row.(address := 10), row.(address := 20, endSequence := true)];
      && NonDecreasing(rows) && Ascending([10, 25])
      && Found(Below(Select(rows, [10, 25], init, false), 25)) != Found(Below(rows, 25))
  {
    var row := init.(endSequence := false);
    var rows := [row.(address := 10), row.(address := 20, endSequence := true)];
    hide Needed;
    hide Select;
    hide Below;
    GapNeeds(rows, init);
    AnswersAgreeIff(rows, [10, 25], init, 25);
    assert IndexBelow(rows, 25, 2) == 1;
  }

  lemma GapNeeds(rows: seq<States>, init: States)
    requires |rows| == 2 && rows[0].address == 10 && rows[1].address == 20 && rows[1].endSequence && init.address == 0
    ensures Needed(rows, [10, 25], init, 0) && !Needed(rows, [10, 25], init, 1)
  {
    assert 10 in [10, 25];
  }
}

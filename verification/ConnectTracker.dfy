/**
  The connection-latency tracker: hooks on tcp_v4_connect and
  tcp_rcv_state_process share a bounded map from sockets to the time of their
  connect. The hooks are modelled as methods of an object that owns the map, and
  any interleaving of them as a sequence of hook calls.
 */
module ConnectTracker {
  import opened Wrappers
  import opened Bytes

  const TCP_SYN_SENT := 2
  const MAX_ENTRIES := 4096

  type Sock = nat
  type ConnectMap = map<Sock, u64>

  /** A call of a hook: the socket, the clock in nanoseconds and the state read from the socket. */
  datatype Hook =
    | Connect(sk: Sock, ns: u64, state: nat)
    | Receive(sk: Sock, ns: u64, state: nat)

  /** What the tracker sends to user space. */
  datatype Report = Report(sk: Sock, state: nat, tsUs: u64, connectTime: u64)

  function Us(h: Hook): u64 { h.ns / 1000 }

  /** A minimum of zero lets everything through. */
  predicate Passes(h: Hook, min: u64) { min == 0 || Us(h) >= min }

  predicate Consumes(h: Hook, min: u64) { h.Receive? && Passes(h, min) && h.state == TCP_SYN_SENT }

  /** The update of the map fails silently when the map is full and the socket is not in it. */
  predicate Records(m: ConnectMap, h: Hook, min: u64) {
    h.Connect? && Passes(h, min) && (h.sk in m || |m| < MAX_ENTRIES)
  }

  function Next(m: ConnectMap, h: Hook, min: u64): ConnectMap {
    if Records(m, h, min) then m[h.sk := Us(h)]
    else if Consumes(h, min) then m - {h.sk}
    else m
  }

  function ConnectTime(m: ConnectMap, h: Hook, min: u64): u64 {
    if Consumes(h, min) && h.sk in m then (Us(h) - m[h.sk]) % TWO64 else 0
  }

  function Reported(m: ConnectMap, h: Hook, min: u64): Option<Report> {
    if Passes(h, min) then Some(Report(h.sk, h.state, Us(h), ConnectTime(m, h, min))) else None
  }

  class Tracker {
    const targMinUs: u64
    var connect: ConnectMap

    constructor (targMinUs: u64)
      ensures this.targMinUs == targMinUs && connect == map[]
    {
      this.targMinUs := targMinUs;
      connect := map[];
    }

    /** handle_tcp_rcv_state_process */
    method RcvStateProcess(sk: Sock, ns: u64, state: nat) returns (report: Option<Report>)
      modifies this
      ensures connect == Next(old(connect), Receive(sk, ns, state), targMinUs)
      ensures report == Reported(old(connect), Receive(sk, ns, state), targMinUs)
    {
      var deltaUs := ns / 1000;
      if targMinUs != 0 && deltaUs < targMinUs {
        return None;
      }
      var tsUs, connectTime := ns / 1000, 0;
      if state == TCP_SYN_SENT {
        if sk !in connect {
          connect := connect - {sk};
        } else {
          connectTime := (tsUs - connect[sk]) % TWO64;
          connect := connect - {sk};
        }
      }
      report := Some(Report(sk, state, tsUs, connectTime));
    }

    /** handle_tcp_v4_connect */
    method V4Connect(sk: Sock, ns: u64, state: nat) returns (report: Option<Report>)
      modifies this
      ensures connect == Next(old(connect), Connect(sk, ns, state), targMinUs)
      ensures report == Reported(old(connect), Connect(sk, ns, state), targMinUs)
    {
      var deltaUs := ns / 1000;
      if targMinUs != 0 && deltaUs < targMinUs {
        return None;
      }
      if sk in connect || |connect| < MAX_ENTRIES {
        connect := connect[sk := ns / 1000];
      }
      report := Some(Report(sk, state, ns / 1000, 0));
    }
  }

  // ---------- runs ----------

  /** The map after the first `n` hooks of a run. */
  function After(hs: seq<Hook>, min: u64, n: nat): ConnectMap
    requires n <= |hs|
  {
    if n == 0 then map[] else Next(After(hs, min, n - 1), hs[n - 1], min)
  }

  /** Hook `j` of the run is a connect that got into the map. */
  ghost predicate Recorded(hs: seq<Hook>, min: u64, j: nat)
    requires j < |hs|
  {
    Records(After(hs, min, j), hs[j], min)
  }

  /** Hook `k` replaces or takes out what is recorded for a socket. */
  ghost predicate Closes(hs: seq<Hook>, min: u64, k: nat, sk: Sock)
    requires k < |hs|
  {
    hs[k].sk == sk && (Recorded(hs, min, k) || Consumes(hs[k], min))
  }

  /** The connect at `j` is recorded and neither replaced nor consumed before `n`. */
  ghost predicate Open(hs: seq<Hook>, min: u64, j: nat, n: nat)
    requires n <= |hs|
  {
    j < n && Recorded(hs, min, j) && forall k :: j < k < n ==> !Closes(hs, min, k, hs[j].sk)
  }

  /** The receive at `i` ends the handshake begun by the connect at `j`. */
  ghost predicate Answers(hs: seq<Hook>, min: u64, j: nat, i: nat)
    requires i < |hs|
  {
    Open(hs, min, j, i) && Consumes(hs[i], min) && hs[i].sk == hs[j].sk
  }

  /** An open connect stays open, and in the map, over a hook that does not close it; a recorded one opens. */
  lemma OpenSteps(hs: seq<Hook>, min: u64, n: nat, j: nat)
    requires n < |hs|
    ensures Open(hs, min, j, n + 1) <==>
      (j == n && Recorded(hs, min, n)) || (Open(hs, min, j, n) && !Closes(hs, min, n, hs[j].sk))
  {
  }

  /** The map holds exactly the open connects, each with its own time. */
  lemma {:induction false} MapHoldsOpen(hs: seq<Hook>, min: u64, n: nat, sk: Sock)
    requires n <= |hs|
    ensures forall j: nat :: Open(hs, min, j, n) && hs[j].sk == sk ==>
      sk in After(hs, min, n) && After(hs, min, n)[sk] == Us(hs[j])
    ensures sk in After(hs, min, n) ==> exists j: nat :: Open(hs, min, j, n) && hs[j].sk == sk
  {
    if n > 0 {
      var p := n - 1;
      var m, h := After(hs, min, p), hs[p];
      MapHoldsOpen(hs, min, p, sk);
      forall j: nat | Open(hs, min, j, n) && hs[j].sk == sk
        ensures sk in Next(m, h, min) && Next(m, h, min)[sk] == Us(hs[j])
      {
        OpenSteps(hs, min, p, j);
      }
      if sk in Next(m, h, min) {
        if h.sk == sk && Recorded(hs, min, p) {
          OpenSteps(hs, min, p, p);
        } else {
          var j: nat :| Open(hs, min, j, p) && hs[j].sk == sk;
          OpenSteps(hs, min, p, j);
        }
      }
    }
  }

  /** A receive answers at most one connect, and a connect is answered at most once. */
  lemma AnswersOneToOne(hs: seq<Hook>, min: u64, j: nat, i: nat, j': nat, i': nat)
    requires i < |hs| && i' < |hs| && Answers(hs, min, j, i) && Answers(hs, min, j', i')
    ensures j == j' <==> i == i'
  {
    assert j < j' < i ==> !Closes(hs, min, j', hs[j].sk);
    assert j' < j < i' ==> !Closes(hs, min, j, hs[j'].sk);
    assert j < i' < i ==> !Closes(hs, min, i', hs[j].sk);
    assert j' < i < i' ==> !Closes(hs, min, i, hs[j'].sk);
  }

  ghost predicate ClockAdvances(hs: seq<Hook>) {
    forall i, j :: 0 <= i < j < |hs| ==> hs[i].ns <= hs[j].ns
  }

  /** The 64-bit subtraction is the true one exactly when it does not go below zero. */
  lemma WrapExactIff(a: u64, b: u64)
    ensures (a - b) % TWO64 == a - b <==> b <= a
  {
    if a < b {
      assert (a - b) % TWO64 == a - b + TWO64;
    }
  }

  lemma RoundedLatency(from: u64, to: u64)
    requires from <= to
    ensures from / 1000 <= to / 1000 && -1000 < 1000 * (to / 1000 - from / 1000) - (to - from) < 1000
  {
  }

  /** Over any run: a receive that answers no connect reports zero. One that answers a connect reports the
      64-bit difference of the two times in microseconds, which is the true difference exactly when the receive
      is not in an earlier microsecond than the connect. */
  lemma ReportIsDifference(hs: seq<Hook>, min: u64, i: nat)
    requires i < |hs|
    ensures (forall j: nat :: !Answers(hs, min, j, i)) ==> ConnectTime(After(hs, min, i), hs[i], min) == 0
    ensures forall j: nat :: Answers(hs, min, j, i) ==>
      && ConnectTime(After(hs, min, i), hs[i], min) == (Us(hs[i]) - Us(hs[j])) % TWO64
      && (ConnectTime(After(hs, min, i), hs[i], min) == Us(hs[i]) - Us(hs[j]) <==> Us(hs[j]) <= Us(hs[i]))
  {
    var m := After(hs, min, i);
    MapHoldsOpen(hs, min, i, hs[i].sk);
    if Consumes(hs[i], min) && hs[i].sk in m {
      var j: nat :| Open(hs, min, j, i) && hs[j].sk == hs[i].sk;
      assert Answers(hs, min, j, i);
    }
    forall j: nat | Answers(hs, min, j, i)
      ensures ConnectTime(m, hs[i], min) == (Us(hs[i]) - Us(hs[j])) % TWO64
      ensures ConnectTime(m, hs[i], min) == Us(hs[i]) - Us(hs[j]) <==> Us(hs[j]) <= Us(hs[i])
    {
      WrapExactIff(Us(hs[i]), Us(hs[j]));
    }
  }

  /** On a clock that does not run backwards, every answered connect is reported with its latency in
      microseconds: never negative, and within one microsecond of the truth. */
  lemma ReportIsLatency(hs: seq<Hook>, min: u64, j: nat, i: nat)
    requires i < |hs| && Answers(hs, min, j, i) && ClockAdvances(hs)
    ensures
      var time := ConnectTime(After(hs, min, i), hs[i], min);
      time == Us(hs[i]) - Us(hs[j]) && -1000 < 1000 * time - (hs[i].ns - hs[j].ns) < 1000
  {
    ReportIsDifference(hs, min, i);
    RoundedLatency(hs[j].ns, hs[i].ns);
  }

  /** The filter compares the clock, not a latency: on a clock that advances it drops a prefix of the run. */
  lemma FilterDropsPrefix(hs: seq<Hook>, min: u64, i: nat, j: nat)
    requires ClockAdvances(hs) && i <= j < |hs| && Passes(hs[i], min)
    ensures Passes(hs[j], min)
  {
    assert i < j ==> hs[i].ns <= hs[j].ns;
  }

  // ---------- conservation ----------

  /** What became of the connects among the first `n` hooks. */
  datatype Tally = Tally(recorded: nat, replaced: nat, consumed: nat)

  ghost function Counted(hs: seq<Hook>, min: u64, n: nat): Tally
    requires n <= |hs|
  {
    if n == 0 then Tally(0, 0, 0) else
    var t := Counted(hs, min, n - 1);
    var h := hs[n - 1];
    var known := h.sk in After(hs, min, n - 1);
    if Recorded(hs, min, n - 1) then Tally(t.recorded + 1, t.replaced + (if known then 1 else 0), t.consumed)
    else if Consumes(h, min) && known then Tally(t.recorded, t.replaced, t.consumed + 1)
    else t
  }

  lemma NextSize(m: ConnectMap, h: Hook, min: u64)
    requires |m| <= MAX_ENTRIES
    ensures |Next(m, h, min)| <= MAX_ENTRIES
    ensures |Next(m, h, min)| ==
      |m| + (if Records(m, h, min) && h.sk !in m then 1 else if Consumes(h, min) && h.sk in m then -1 else 0)
  {
    if h.sk !in m {
      assert m - {h.sk} == m;
    } else {
      assert (m - {h.sk}).Keys == m.Keys - {h.sk};
      assert m[h.sk := Us(h)].Keys == m.Keys;
    }
  }

  /** Every recorded connect is replaced, consumed or still in the map, and the map never outgrows its limit. */
  lemma {:induction false} Conservation(hs: seq<Hook>, min: u64, n: nat)
    requires n <= |hs|
    ensures |After(hs, min, n)| <= MAX_ENTRIES
    ensures var t := Counted(hs, min, n); t.recorded == t.replaced + t.consumed + |After(hs, min, n)|
  {
    if n > 0 {
      Conservation(hs, min, n - 1);
      NextSize(After(hs, min, n - 1), hs[n - 1], min);
    }
  }

  // ---------- reports in terms of the hooks alone ----------

  /** The sockets of the first `n` hooks. */
  ghost function Socks(hs: seq<Hook>, n: nat): set<Sock>
    requires n <= |hs|
  {
    set k | 0 <= k < n :: hs[k].sk
  }

  /** Among the hooks before `n` that are not filtered, `j` is the last connect on the socket, and no receive in
      state 2 follows it there. */
  ghost predicate LastConnect(hs: seq<Hook>, min: u64, sk: Sock, j: nat, n: nat)
    requires n <= |hs|
  {
    && j < n && hs[j].Connect? && hs[j].sk == sk && (min == 0 || hs[j].ns / 1000 >= min)
    && forall k :: j < k < n && hs[k].sk == sk && (min == 0 || hs[k].ns / 1000 >= min) ==>
         hs[k].Receive? && hs[k].state != 2
  }

  lemma SocksStep(hs: seq<Hook>, n: nat)
    requires 0 < n <= |hs|
    ensures Socks(hs, n) == Socks(hs, n - 1) + {hs[n - 1].sk} && |Socks(hs, n - 1)| <= |Socks(hs, n)|
  {
    SubsetSize(Socks(hs, n - 1), Socks(hs, n));
  }

  lemma {:induction false} SubsetSize(a: set<Sock>, b: set<Sock>)
    requires a <= b
    ensures |a| <= |b|
    decreases a
  {
    if a != {} {
      var x :| x in a;
      SubsetSize(a - {x}, b - {x});
    }
  }

  lemma NextKeys(m: ConnectMap, h: Hook, min: u64)
    ensures Next(m, h, min).Keys <= m.Keys + {h.sk}
  {
  }

  /** The map holds sockets that have been seen, so it has room while no more than 4096 have been. */
  lemma {:induction false} MapHasRoom(hs: seq<Hook>, min: u64, n: nat)
    requires n < |hs| && |Socks(hs, n + 1)| <= 4096
    ensures After(hs, min, n).Keys <= Socks(hs, n)
    ensures hs[n].sk in After(hs, min, n) || |After(hs, min, n)| < 4096
  {
    hide Next;
    hide Socks;
    SocksStep(hs, n + 1);
    if n > 0 {
      MapHasRoom(hs, min, n - 1);
      SocksStep(hs, n);
      NextKeys(After(hs, min, n - 1), hs[n - 1], min);
    }
    var keys, sk := After(hs, min, n).Keys, hs[n].sk;
    if sk !in keys {
      SubsetSize(keys + {sk}, Socks(hs, n + 1));
    }
  }

  lemma LastConnectStep(hs: seq<Hook>, min: u64, sk: Sock, j: nat, n: nat)
    requires n < |hs|
    ensures
      var h := hs[n];
      var mine := h.sk == sk && (min == 0 || h.ns / 1000 >= min);
      LastConnect(hs, min, sk, j, n + 1) <==>
        (j == n && mine && h.Connect?) || (LastConnect(hs, min, sk, j, n) && (mine ==> h.Receive? && h.state != 2))
  {
  }

  /** With at most 4096 sockets, the map holds the time of the last connect of each socket without a receive since. */
  lemma {:induction false} MapHoldsLast(hs: seq<Hook>, min: u64, n: nat, sk: Sock)
    requires n <= |hs| && |Socks(hs, n)| <= 4096
    ensures forall j: nat :: LastConnect(hs, min, sk, j, n) ==>
      sk in After(hs, min, n) && After(hs, min, n)[sk] == hs[j].ns / 1000
    ensures sk in After(hs, min, n) ==> exists j: nat :: LastConnect(hs, min, sk, j, n)
  {
    if n > 0 {
      var p := n - 1;
      SocksStep(hs, n);
      MapHoldsLast(hs, min, p, sk);
      MapHasRoom(hs, min, p);
      hide LastConnect;
      hide Socks;
      var m, h := After(hs, min, p), hs[p];
      forall j: nat | LastConnect(hs, min, sk, j, n)
        ensures sk in Next(m, h, min) && Next(m, h, min)[sk] == hs[j].ns / 1000
      {
        LastConnectStep(hs, min, sk, j, p);
      }
      if sk in Next(m, h, min) {
        LastConnectStep(hs, min, sk, p, p);
        if sk in m {
          var j: nat :| LastConnect(hs, min, sk, j, p);
          LastConnectStep(hs, min, sk, j, p);
        }
      }
    }
  }

  /** Over any run with at most 4096 sockets: a hook is reported unless the clock is below the minimum, and its
      report gives the time since the last connect on the socket if it is a receive in state 2 that no other such
      receive precedes since then, and zero otherwise. */
  lemma ReportsSinceLastConnect(hs: seq<Hook>, min: u64, i: nat)
    requires i < |hs| && |Socks(hs, i)| <= 4096
    ensures min != 0 && hs[i].ns / 1000 < min ==> Reported(After(hs, min, i), hs[i], min) == None
    ensures min == 0 || hs[i].ns / 1000 >= min ==>
      var r := Reported(After(hs, min, i), hs[i], min);
      && r.Some? && r.value.sk == hs[i].sk && r.value.state == hs[i].state && r.value.tsUs == hs[i].ns / 1000
      && (forall j: nat :: hs[i].Receive? && hs[i].state == 2 && LastConnect(hs, min, hs[i].sk, j, i) ==>
            r.value.connectTime == (hs[i].ns / 1000 - hs[j].ns / 1000) % 0x1_0000_0000_0000_0000)
      && (hs[i].Connect? || hs[i].state != 2 || (forall j: nat :: !LastConnect(hs, min, hs[i].sk, j, i)) ==>
            r.value.connectTime == 0)
  {
    MapHoldsLast(hs, min, i, hs[i].sk);
    ReportOf(After(hs, min, i), hs[i], min);
    hide After;
    hide LastConnect;
    hide Socks;
    hide Reported;
  }

  lemma ReportOf(m: ConnectMap, h: Hook, min: u64)
    ensures min != 0 && h.ns / 1000 < min ==> Reported(m, h, min) == None
    ensures min == 0 || h.ns / 1000 >= min ==>
      var since := h.Receive? && h.state == 2 && h.sk in m;
      var time := if since then (h.ns / 1000 - m[h.sk]) % 0x1_0000_0000_0000_0000 else 0;
      Reported(m, h, min) == Some(Report(h.sk, h.state, h.ns / 1000, time))
  {
  }
}

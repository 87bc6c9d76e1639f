/**
  When marking ends.  The recursion of btfgen_mark_type and btfgen_mark_type_match
  is run with a bound on its depth; it returns for some bound if and only if no
  chain of its calls comes back to a visit.
 */
module BtfEnds {
  import opened Btf
  import opened BtfMark
  import opened Chains

  datatype Outcome = Returned(ok: bool) | Running

  /** The visit of `n` with recursion of depth `fuel` at most: what it returns, or that it is still running. */
  function Run(types: seq<Type>, n: Node, fuel: nat): Outcome
    decreases fuel, 0
  {
    if n.id == 0 then Returned(true)
    else if fuel == 0 then Running
    else if !Supported(types, n) then Returned(false)
    else RunAll(types, Kids(types, n), fuel - 1)
  }

  /** The visits of `ks`, one after the other, up to the first that fails. */
  function RunAll(types: seq<Type>, ks: seq<Node>, fuel: nat): Outcome
    decreases fuel, 1 + |ks|
  {
    if ks == [] then Returned(true)
    else
      var first := Run(types, ks[0], fuel);
      if first == Returned(true) then RunAll(types, ks[1..], fuel) else first
  }

  lemma {:induction false} MoreFuel(types: seq<Type>, n: Node, fuel: nat, more: nat)
    requires fuel <= more && Run(types, n, fuel) != Running
    ensures Run(types, n, more) == Run(types, n, fuel)
    decreases fuel, 0
  {
    if n.id != 0 && Supported(types, n) {
      MoreFuelAll(types, Kids(types, n), fuel - 1, more - 1);
    }
  }

  lemma {:induction false} MoreFuelAll(types: seq<Type>, ks: seq<Node>, fuel: nat, more: nat)
    requires fuel <= more && RunAll(types, ks, fuel) != Running
    ensures RunAll(types, ks, more) == RunAll(types, ks, fuel)
    decreases fuel, 1 + |ks|
  {
    if ks != [] {
      MoreFuel(types, ks[0], fuel, more);
      if Run(types, ks[0], fuel) == Returned(true) {
        MoreFuelAll(types, ks[1..], fuel, more);
      }
    }
  }

  // ---------- a visit that reports success ----------

  lemma {:induction false} SuccessIsTrue(types: seq<Type>, n: Node, fuel: nat)
    requires ValidBtf(types) && n.id < |types| && Run(types, n, fuel) == Returned(true)
    ensures Succeeds(types, n)
    decreases fuel, 0
  {
    if n.id == 0 {
      VoidVisits(types, n);
    } else {
      SuccessIsTrueAll(types, n, 0, fuel - 1);
      KidsMakeSuccess(types, n);
    }
  }

  lemma {:induction false} SuccessIsTrueAll(types: seq<Type>, n: Node, i: nat, fuel: nat)
    requires ValidBtf(types) && i <= |Kids(types, n)| && RunAll(types, Kids(types, n)[i..], fuel) == Returned(true)
    ensures forall j :: i <= j < |Kids(types, n)| ==> Succeeds(types, Kids(types, n)[j])
    decreases fuel, 1 + |Kids(types, n)| - i
  {
    var ks := Kids(types, n);
    if i < |ks| {
      KidInTable(types, n, ks[i]);
      SuccessIsTrue(types, ks[i], fuel);
      assert ks[i..][1..] == ks[i + 1..];
      SuccessIsTrueAll(types, n, i + 1, fuel);
    }
  }

  lemma KidsMakeSuccess(types: seq<Type>, n: Node)
    requires 0 < n.id < |types| && Supported(types, n)
    requires forall j :: 0 <= j < |Kids(types, n)| ==> Succeeds(types, Kids(types, n)[j])
    ensures Succeeds(types, n)
  {
    hide Kids;
    hide Visits;
    hide Ends;
    VisitUnfolds(types, n);
    EndsIfAllEnd(KidsOf(types), n);
  }

  lemma {:induction false} SuccessRuns(types: seq<Type>, n: Node, fuel: nat)
    requires ValidBtf(types) && n.id < |types| && Succeeds(types, n)
    ensures Run(types, n, fuel) != Returned(false)
    decreases fuel, 0
  {
    if n.id != 0 && fuel > 0 {
      IsNode(types, n);
      LeadsSelf(KidsOf(types), n);
      assert n in Visits(types, n);
      SuccessRunsAll(types, n, 0, fuel - 1);
    }
  }

  lemma {:induction false} SuccessRunsAll(types: seq<Type>, n: Node, i: nat, fuel: nat)
    requires ValidBtf(types) && Succeeds(types, n) && i <= |Kids(types, n)|
    ensures RunAll(types, Kids(types, n)[i..], fuel) != Returned(false)
    decreases fuel, 1 + |Kids(types, n)| - i
  {
    var ks := Kids(types, n);
    if i < |ks| {
      KidInTable(types, n, ks[i]);
      VisitsShrink(types, n, ks[i]);
      SuccessRuns(types, ks[i], fuel);
      assert ks[i..][1..] == ks[i + 1..];
      SuccessRunsAll(types, n, i + 1, fuel);
    }
  }

  // ---------- a chain of calls keeps the recursion running ----------

  lemma {:induction false} CalledRuns(types: seq<Type>, ks: seq<Node>, i: nat, fuel: nat)
    requires ValidBtf(types) && i < |ks| && forall j :: 0 <= j <= i ==> ks[j].id < |types|
    requires forall j :: 0 <= j < i ==> Succeeds(types, ks[j])
    requires Run(types, ks[i], fuel) == Running
    ensures RunAll(types, ks, fuel) == Running
    decreases i
  {
    if i > 0 {
      SuccessRuns(types, ks[0], fuel);
      CalledRuns(types, ks[1..], i - 1, fuel);
    }
  }

  lemma {:induction false} ChainRuns(types: seq<Type>, path: seq<Node>, fuel: nat)
    requires ValidBtf(types) && IsChain(CallsOf(types), path) && |path| == fuel + 2
    ensures Run(types, path[0], fuel) == Running
    decreases fuel
  {
    assert CallsOf(types)(path[0], path[1]);
    if fuel > 0 {
      ChainRuns(types, path[1..], fuel - 1);
    }
    CallRuns(types, path[0], path[1], fuel);
  }

  lemma CallRuns(types: seq<Type>, n: Node, k: Node, fuel: nat)
    requires ValidBtf(types) && Calls(types, n, k) && (fuel > 0 ==> Run(types, k, fuel - 1) == Running)
    ensures Run(types, n, fuel) == Running
  {
    hide Visits;
    hide Ends;
    hide ValidBtf;
    var ks := Kids(types, n);
    var i: nat :| CallsAt(types, n, i) && ks[i] == k;
    forall j | 0 <= j < |ks|
      ensures ks[j].id < |types|
    {
      KidInTable(types, n, ks[j]);
    }
    if fuel > 0 {
      CalledRuns(types, ks, i, fuel - 1);
    }
  }

  // ---------- where chains of calls end, so does the recursion ----------

  lemma {:induction false} EndsReturns(types: seq<Type>, n: Node) returns (fuel: nat)
    requires ValidBtf(types) && n.id < |types| && Ends(CallsOf(types), n)
    ensures Run(types, n, fuel) != Running
    decreases Pending(types, n), 2 + |Kids(types, n)|
  {
    if n.id == 0 {
      fuel := 0;
    } else if !Supported(types, n) {
      fuel := 1;
    } else {
      var deep := EndsReturnsAll(types, n, 0);
      fuel := deep + 1;
    }
  }

  lemma {:induction false} EndsReturnsAll(types: seq<Type>, n: Node, i: nat) returns (fuel: nat)
    requires ValidBtf(types) && 0 < n.id < |types| && Ends(CallsOf(types), n) && Supported(types, n)
    requires i <= |Kids(types, n)| && forall j :: 0 <= j < i ==> Succeeds(types, Kids(types, n)[j])
    ensures RunAll(types, Kids(types, n)[i..], fuel) != Running
    decreases Pending(types, n), 1 + |Kids(types, n)| - i
  {
    var ks := Kids(types, n);
    fuel := 0;
    if i < |ks| {
      CalledEnds(types, n, i);
      fuel := EndsReturns(types, ks[i]);
      assert ks[i..][1..] == ks[i + 1..];
      if Run(types, ks[i], fuel) == Returned(true) {
        SuccessIsTrue(types, ks[i], fuel);
        var rest := EndsReturnsAll(types, n, i + 1);
        var most := if rest < fuel then fuel else rest;
        MoreFuel(types, ks[i], fuel, most);
        MoreFuelAll(types, ks[i + 1..], rest, most);
        fuel := most;
      }
    }
  }

  /** A visit returns if and only if no chain of the calls it makes comes back to a visit. */
  lemma ReturnsIff(types: seq<Type>, n: Node)
    requires ValidBtf(types) && n.id < |types|
    ensures (exists fuel: nat :: Run(types, n, fuel) != Running) <==> Ends(CallsOf(types), n)
  {
    if Ends(CallsOf(types), n) {
      var fuel := EndsReturns(types, n);
    } else {
      forall fuel: nat
        ensures Run(types, n, fuel) == Running
      {
        var path := EndlessChains(CallsOf(types), n, fuel + 2);
        ChainRuns(types, path, fuel);
      }
    }
  }

  /** That in turn is the case if and only if its calls descend in some rank. */
  lemma RankedIff(types: seq<Type>, n: Node)
    requires ValidBtf(types) && n.id < |types|
    ensures Ends(CallsOf(types), n) <==> exists rank: Node -> nat :: Ranks(CallsOf(types), rank, n)
  {
    CallsInside(types);
    IsNode(types, n);
    EndsIffRanked(CallsOf(types), Nodes(types), n);
  }

  lemma CallsInside(types: seq<Type>)
    requires ValidBtf(types)
    ensures Inside(CallsOf(types), Nodes(types))
  {
    forall n, k | n in Nodes(types) && CallsOf(types)(n, k)
      ensures k in Nodes(types)
    {
      KidInTable(types, n, k);
      IsNode(types, k);
    }
  }

  /** Where all kinds are supported nothing cuts a visit short: it returns if and only if no chain of
      references from `n` comes back to a visit. */
  lemma SupportedReturnsIff(types: seq<Type>, n: Node)
    requires ValidBtf(types) && n.id < |types| && AllSupported(types, Visits(types, n))
    ensures Ends(CallsOf(types), n) <==> Ends(KidsOf(types), n)
  {
    if Ends(CallsOf(types), n) {
      SuccessEnds(types, n);
    }
    if Ends(KidsOf(types), n) {
      KidsEndCalls(types, n);
    }
  }

  /** Calls are made for references only. */
  lemma KidsEndCalls(types: seq<Type>, n: Node)
    requires Ends(KidsOf(types), n)
    ensures Ends(CallsOf(types), n)
  {
    forall path | IsChain(CallsOf(types), path) && path[0] == n
      ensures !Repeating(path)
    {
      assert IsChain(KidsOf(types), path) by {
        forall i | 0 <= i < |path| - 1
          ensures KidsOf(types)(path[i], path[i + 1])
        {
          assert CallsOf(types)(path[i], path[i + 1]);
        }
      }
    }
  }
}

/**
  Marking the part of a type table that recorded relocations need.
 */
module BtfMark {
  import opened Btf
  import opened Chains

  /** How a type is visited: by btfgen_mark_type, following pointers or not, or by
      btfgen_mark_type_match, behind a pointer or not. */
  datatype Mode = Plain(follow: bool) | Match(behind: bool)
  datatype Node = Node(id: nat, mode: Mode)

  function At(ids: seq<nat>, mode: Mode): (s: seq<Node>)
    ensures |s| == |ids|
  {
    seq(|ids|, i requires 0 <= i < |ids| => Node(ids[i], mode))
  }

  /** The mode in which the parts of an array or a prototype are visited. */
  function Inner(mode: Mode): Mode { if mode.Match? then Match(false) else mode }

  /** The visits that visiting `n` leads to. */
  function Kids(types: seq<Type>, n: Node): (s: seq<Node>) {
    if n.id == 0 || n.id >= |types| then [] else
    match types[n.id]
    case Ptr(r) =>
      if n.mode.Match? then [Node(r, Match(true))]
      else if n.mode.follow then [Node(r, n.mode)] else []
    case Mod(_, _, r) => [Node(r, n.mode)]
    case Typedef(_, r) => [Node(r, n.mode)]
    case Fwd(_, _, r) => if n.mode.Match? then [Node(r, n.mode)] else []
    case Array(e, x, _) => [Node(e, Inner(n.mode)), Node(x, Inner(n.mode))]
    case FuncProto(r, ps) => [Node(r, Inner(n.mode))] + At(ParamTypes(ps), Inner(n.mode))
    case Composite(_, _, _, _, ms) => if n.mode == Match(false) then At(MemberTypes(ms), n.mode) else []
    case _ => []
  }

  /** The kinds the visit accepts; any other kind is reported as unsupported. */
  predicate Supported(types: seq<Type>, n: Node) {
    n.id == 0 || n.id >= |types| ||
    match types[n.id]
    case Mod(m, _, _) => m != TypeTag
    case Fwd(_, _, _) => n.mode.Match?
    case Other(_, _) => false
    case _ => true
  }

  // ---------- what a visit leads to ----------

  const MODES: set<Mode> := {Plain(false), Plain(true), Match(false), Match(true)}

  /** All the visits there are. */
  ghost function Nodes(types: seq<Type>): set<Node> {
    set i, m | 0 <= i < |types| && m in MODES :: Node(i, m)
  }

  ghost function KidsOf(types: seq<Type>): (Node, Node) -> bool {
    (n, k) => k in Kids(types, n)
  }

  /** The visits that `n` leads to, itself included; visiting void does nothing. */
  ghost function Visits(types: seq<Type>, n: Node): set<Node> {
    set a | a in Nodes(types) && a.id != 0 && Leads(KidsOf(types), n, a)
  }

  ghost function VisitsAll(types: seq<Type>, ks: seq<Node>): set<Node> {
    set a, k | k in ks && a in Visits(types, k) :: a
  }

  ghost predicate AllSupported(types: seq<Type>, ns: set<Node>) { forall n :: n in ns ==> Supported(types, n) }

  ghost function Ids(ns: set<Node>): set<nat> { set n | n in ns :: n.id }

  /** The members marked by a set of visits: all members of a composite matched by value. */
  ghost function MembersOf(types: seq<Type>, ns: set<Node>): set<(nat, nat)> {
    set n, i | n in ns && n.id < |types| && types[n.id].Composite? && n.mode == Match(false)
            && 0 <= i < |types[n.id].members| :: (n.id, i)
  }

  lemma IsNode(types: seq<Type>, n: Node)
    ensures n in Nodes(types) <==> n.id < |types|
  {
    assert n.mode in MODES by {
      match n.mode
      case Plain(b) => assert b == true || b == false;
      case Match(b) => assert b == true || b == false;
    }
    assert n == Node(n.id, n.mode);
  }

  lemma KidIsRef(types: seq<Type>, n: Node, k: Node)
    requires k in Kids(types, n)
    ensures 0 < n.id < |types| && k.id in Refs(types[n.id])
  {
    var ks := Kids(types, n);
    var i :| 0 <= i < |ks| && ks[i] == k;
    assert Refs(types[n.id])[i] == k.id;
  }

  lemma KidInTable(types: seq<Type>, n: Node, k: Node)
    requires ValidBtf(types) && k in Kids(types, n)
    ensures 0 < n.id < |types| && k.id < |types|
  {
    KidIsRef(types, n, k);
    assert k.id in Refs(types[n.id]);
  }

  /** A visit is its own node and the visits its references lead to. */
  lemma VisitUnfolds(types: seq<Type>, n: Node)
    requires 0 < n.id < |types|
    ensures Visits(types, n) == {n} + VisitsAll(types, Kids(types, n))
  {
    var next := KidsOf(types);
    IsNode(types, n);
    LeadsSelf(next, n);
    forall a | a in Visits(types, n) && a != n
      ensures a in VisitsAll(types, Kids(types, n))
    {
      var k := LeadsFirst(next, n, a);
      assert k in Kids(types, n) && a in Visits(types, k);
    }
    forall a | a in VisitsAll(types, Kids(types, n))
      ensures a in Visits(types, n)
    {
      var k :| k in Kids(types, n) && a in Visits(types, k);
      LeadsFrom(next, n, k, a);
    }
  }

  /** Void has no references. */
  lemma VoidVisits(types: seq<Type>, n: Node)
    requires n.id == 0
    ensures Visits(types, n) == {} && Ends(KidsOf(types), n)
  {
    var next := KidsOf(types);
    forall a | a in Visits(types, n)
      ensures false
    {
      var k := LeadsFirst(next, n, a);
    }
    EndsIfAllEnd(next, n);
  }

  /** What a visit leads to, its references lead to as well. */
  lemma VisitsClosed(types: seq<Type>, n: Node, a: Node, k: Node)
    requires ValidBtf(types) && a in Visits(types, n) && k in Kids(types, a) && k.id != 0
    ensures k in Visits(types, n)
  {
    KidInTable(types, a, k);
    IsNode(types, k);
    LeadsOn(KidsOf(types), n, a, k);
  }

  lemma VisitsInTable(types: seq<Type>, n: Node, a: Node)
    requires a in Visits(types, n)
    ensures 0 < a.id < |types|
  {
    IsNode(types, a);
  }

  /** Where visits end, those of a reference are fewer. */
  lemma VisitsShrink(types: seq<Type>, n: Node, k: Node)
    requires ValidBtf(types) && Ends(KidsOf(types), n) && k in Kids(types, n)
    ensures Visits(types, k) < Visits(types, n) && Ends(KidsOf(types), k)
  {
    var next := KidsOf(types);
    KidInTable(types, n, k);
    IsNode(types, n);
    EndsOn(next, n, k);
    LeadsSelf(next, n);
    forall a | a in Visits(types, k)
      ensures a in Visits(types, n)
    {
      LeadsFrom(next, n, k, a);
    }
    assert n in Visits(types, n) && n !in Visits(types, k);
  }

  // ---------- the recursive calls that are made ----------

  /** The visit of `k` returns, and reports success. */
  ghost predicate Succeeds(types: seq<Type>, k: Node) {
    Ends(KidsOf(types), k) && AllSupported(types, Visits(types, k))
  }

  /** Visiting `n` calls itself for its reference `i`: the kind of `n` is supported and the calls for
      the references before it have succeeded. */
  ghost predicate CallsAt(types: seq<Type>, n: Node, i: nat) {
    Supported(types, n) && i < |Kids(types, n)| && forall j :: 0 <= j < i ==> Succeeds(types, Kids(types, n)[j])
  }

  ghost predicate Calls(types: seq<Type>, n: Node, k: Node) {
    exists i: nat :: CallsAt(types, n, i) && Kids(types, n)[i] == k
  }

  ghost function CallsOf(types: seq<Type>): (Node, Node) -> bool {
    (n, k) => Calls(types, n, k)
  }

  /** The visits still to be called from `n`: what bounds the recursion. */
  ghost function Pending(types: seq<Type>, n: Node): set<Node> { Reach(CallsOf(types), Nodes(types), n) }

  /** A visit that reports success leads to nothing that does not end. */
  lemma {:induction false} SuccessEnds(types: seq<Type>, n: Node)
    requires ValidBtf(types) && n.id < |types| && Ends(CallsOf(types), n) && AllSupported(types, Visits(types, n))
    ensures Succeeds(types, n)
    decreases Pending(types, n), 1
  {
    if n.id == 0 {
      VoidVisits(types, n);
    } else {
      IsNode(types, n);
      VisitUnfolds(types, n);
      LeadsSelf(KidsOf(types), n);
      assert n in Visits(types, n);
      var ks := Kids(types, n);
      KidsSucceed(types, n, |ks|);
      forall k | KidsOf(types)(n, k)
        ensures Ends(KidsOf(types), k)
      {
        var i :| 0 <= i < |ks| && ks[i] == k;
        assert Succeeds(types, ks[i]);
      }
      EndsIfAllEnd(KidsOf(types), n);
    }
  }

  /** The references visited so far have succeeded, so the next one is called. */
  lemma {:induction false} KidsSucceed(types: seq<Type>, n: Node, i: nat)
    requires ValidBtf(types) && 0 < n.id < |types| && Ends(CallsOf(types), n) && Supported(types, n)
    requires i <= |Kids(types, n)| && AllSupported(types, VisitsAll(types, Kids(types, n)[..i]))
    ensures forall j :: 0 <= j < i ==> Succeeds(types, Kids(types, n)[j])
    decreases Pending(types, n), 0, i
  {
    hide Kids;
    hide Visits;
    hide Ends;
    hide Pending;
    hide ValidBtf;
    if i > 0 {
      var ks, p := Kids(types, n), i - 1;
      assert ks[..i] == ks[..p] + [ks[p]];
      assert VisitsAll(types, ks[..p]) <= VisitsAll(types, ks[..i]);
      KidsSucceed(types, n, p);
      CalledEnds(types, n, p);
      assert Visits(types, ks[p]) <= VisitsAll(types, ks[..i]);
      SuccessEnds(types, ks[p]);
    }
  }

  lemma CalledEnds(types: seq<Type>, n: Node, i: nat)
    requires ValidBtf(types) && 0 < n.id < |types| && Ends(CallsOf(types), n) && CallsAt(types, n, i)
    ensures
      var k := Kids(types, n)[i];
      k.id < |types| && Ends(CallsOf(types), k) && Pending(types, k) < Pending(types, n)
  {
    var k := Kids(types, n)[i];
    KidInTable(types, n, k);
    IsNode(types, n);
    assert CallsOf(types)(n, k);
    EndsOn(CallsOf(types), n, k);
    ReachShrinks(CallsOf(types), Nodes(types), n, k);
  }
}

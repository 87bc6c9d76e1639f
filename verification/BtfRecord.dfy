/**
  Recording relocations: the recursive marking procedures and the walk along a
  field access, over marks that only grow.
 */
module BtfRecord {
  import opened Wrappers
  import opened Btf
  import opened BtfMark
  import opened Chains

  /** The set of marked types and marked members. */
  datatype Marks = Marks(types: set<nat>, members: set<(nat, nat)>)

  /** `m` with everything marked that the visits `vs` mark. */
  ghost function Marking(src: seq<Type>, m: Marks, vs: set<Node>): Marks {
    Marks(m.types + Ids(vs), m.members + MembersOf(src, vs))
  }

  ghost predicate Within(a: Marks, b: Marks) { a.types <= b.types && a.members <= b.members }

  /** The outcome of a visit: everything is marked, or marking stopped at an unsupported kind. */
  ghost predicate Marked(src: seq<Type>, before: Marks, vs: set<Node>, ok: bool, after: Marks) {
    && ok == AllSupported(src, vs)
    && (ok ==> after == Marking(src, before, vs))
    && Within(before, after) && Within(after, Marking(src, before, vs))
  }

  /** One more visit: outcomes compose. */
  lemma MarkedThen(src: seq<Type>, m0: Marks, a: set<Node>, m1: Marks, b: set<Node>, ok: bool, m2: Marks)
    requires Marked(src, m0, a, true, m1) && Marked(src, m1, b, ok, m2)
    ensures Marked(src, m0, a + b, ok, m2)
  {
    MembersOfUnion(src, a, b);
    assert Ids(a + b) == Ids(a) + Ids(b);
  }

  /** A failed visit fails every larger visit it is part of. */
  lemma MarkedFails(src: seq<Type>, m0: Marks, a: set<Node>, m1: Marks, b: set<Node>)
    requires Marked(src, m0, a, false, m1) && a <= b
    ensures Marked(src, m0, b, false, m1)
  {
    MembersOfUnion(src, a, b);
    assert a + b == b;
    assert Ids(a + b) == Ids(a) + Ids(b);
  }

  lemma MembersOfUnion(src: seq<Type>, a: set<Node>, b: set<Node>)
    ensures MembersOf(src, a + b) == MembersOf(src, a) + MembersOf(src, b)
  {
    assert MembersOf(src, a + b) <= MembersOf(src, a) + MembersOf(src, b);
    forall x | x in MembersOf(src, a)
      ensures x in MembersOf(src, a + b)
    {
      var n, i :| n in a && n.id < |src| && src[n.id].Composite? && n.mode == Match(false)
              && 0 <= i < |src[n.id].members| && x == (n.id, i);
      assert n in a + b;
    }
    forall x | x in MembersOf(src, b)
      ensures x in MembersOf(src, a + b)
    {
      var n, i :| n in b && n.id < |src| && src[n.id].Composite? && n.mode == Match(false)
              && 0 <= i < |src[n.id].members| && x == (n.id, i);
      assert n in a + b;
    }
  }

  // ---------- visiting the kids of a node one after the other ----------

  /** The visit of `n` returns: no chain of the calls it makes comes back to a visit. */
  ghost predicate CanVisit(src: seq<Type>, n: Node) {
    ValidBtf(src) && n.id < |src| && Ends(CallsOf(src), n)
  }

  /** The visits made once the first `i` kids of `n` are done. */
  ghost function Partial(src: seq<Type>, n: Node, i: nat): set<Node>
    requires i <= |Kids(src, n)|
  {
    {n} + VisitsAll(src, Kids(src, n)[..i])
  }

  /** When the first `i` kids are done and supported, the next one is called, and fewer calls are pending. */
  lemma KidCanVisit(src: seq<Type>, n: Node, i: nat)
    requires CanVisit(src, n) && n.id != 0 && i < |Kids(src, n)| && AllSupported(src, Partial(src, n, i))
    ensures CanVisit(src, Kids(src, n)[i]) && Pending(src, Kids(src, n)[i]) < Pending(src, n)
  {
    hide Ends;
    hide Visits;
    hide Kids;
    hide Pending;
    assert n in Partial(src, n, i);
    KidsSucceed(src, n, i);
    CalledEnds(src, n, i);
  }

  /** One kid more: either the visit goes on, or it has failed for good. */
  lemma KidStep(src: seq<Type>, n: Node, i: nat, m0: Marks, m1: Marks, ok: bool, m2: Marks)
    requires 0 < n.id < |src| && i < |Kids(src, n)|
    requires Marked(src, m0, Partial(src, n, i), true, m1)
    requires Marked(src, m1, Visits(src, Kids(src, n)[i]), ok, m2)
    ensures Marked(src, m0, Partial(src, n, i + 1), ok, m2)
    ensures !ok ==> Marked(src, m0, Visits(src, n), false, m2)
  {
    hide Visits;
    hide Kids;
    hide Marked;
    var ks := Kids(src, n);
    assert ks[..i + 1] == ks[..i] + [ks[i]];
    assert Partial(src, n, i + 1) == Partial(src, n, i) + Visits(src, ks[i]);
    MarkedThen(src, m0, Partial(src, n, i), m1, Visits(src, ks[i]), ok, m2);
    if !ok {
      VisitUnfolds(src, n);
      assert forall k :: k in ks[..i + 1] ==> k in ks;
      MarkedFails(src, m0, Partial(src, n, i + 1), m2, Visits(src, n));
    }
  }

  lemma AllKids(src: seq<Type>, n: Node)
    requires 0 < n.id < |src|
    ensures Partial(src, n, |Kids(src, n)|) == Visits(src, n)
  {
    VisitUnfolds(src, n);
    assert Kids(src, n)[..|Kids(src, n)|] == Kids(src, n);
  }

  /** Marking a node that marks no members starts its visit. */
  lemma SelfMarked(src: seq<Type>, n: Node, m: Marks)
    requires 0 < n.id < |src| && Supported(src, n)
    requires n.mode == Match(false) ==> !src[n.id].Composite?
    ensures Marked(src, m, Partial(src, n, 0), true, m.(types := m.types + {n.id}))
  {
    assert Partial(src, n, 0) == {n};
    assert Ids({n}) == {n.id};
    assert MembersOf(src, {n}) == {};
  }

  lemma VoidMarked(src: seq<Type>, n: Node, m: Marks)
    requires n.id == 0
    ensures Marked(src, m, Visits(src, n), true, m)
  {
    VoidVisits(src, n);
  }

  lemma Unsupported(src: seq<Type>, n: Node, m: Marks)
    requires 0 < n.id < |src| && !Supported(src, n)
    ensures Marked(src, m, Visits(src, n), false, m.(types := m.types + {n.id}))
  {
    VisitUnfolds(src, n);
    assert n in Visits(src, n);
  }

  /** The members of the composite `id`. */
  ghost function MembersAt(src: seq<Type>, id: nat): set<(nat, nat)>
    requires id < |src| && src[id].Composite?
  {
    set i | 0 <= i < |src[id].members| :: (id, i)
  }

  ghost function Plus(m: Marks, more: set<(nat, nat)>): Marks { m.(members := m.members + more) }

  /** Members marked beforehand do not disturb a visit. */
  lemma MarkedPlus(src: seq<Type>, m1: Marks, vs: set<Node>, ok: bool, m2: Marks, more: set<(nat, nat)>)
    requires Marked(src, m1, vs, ok, m2)
    ensures Marked(src, Plus(m1, more), vs, ok, Plus(m2, more))
  {
    assert Marking(src, Plus(m1, more), vs) == Plus(Marking(src, m1, vs), more);
  }

  /** The first `i` members of `n` are marked and visited; counting in the members still to come,
      this is the outcome of the visits made so far. */
  ghost predicate MembersDone(src: seq<Type>, n: Node, m0: Marks, i: nat, m: Marks)
    requires 0 < n.id < |src| && src[n.id].Composite? && i <= |Kids(src, n)|
  {
    && Marked(src, m0, Partial(src, n, i), true, Plus(m, MembersAt(src, n.id)))
    && Within(m0, m)
    && forall j :: 0 <= j < i ==> (n.id, j) in m.members
  }

  /** Marking a composite by value, all its members included, starts its visit. */
  lemma CompositeMarked(src: seq<Type>, n: Node, m: Marks)
    requires 0 < n.id < |src| && src[n.id].Composite? && n.mode == Match(false)
    ensures Marked(src, m, Partial(src, n, 0), true, Plus(m.(types := m.types + {n.id}), MembersAt(src, n.id)))
  {
    assert Partial(src, n, 0) == {n};
    assert Ids({n}) == {n.id};
    assert MembersOf(src, {n}) == MembersAt(src, n.id);
  }

  // ---------- following a field access ----------

  /** Skip modifiers and typedefs; on modifiers that run in circles nothing is skipped. */
  ghost function Skip(types: seq<Type>, id: nat): (r: nat)
    requires ValidBtf(types) && id < |types|
    ensures r < |types|
    ensures Ends(KidsOf(types), Node(id, Plain(false))) ==>
      !IsModOrTypedef(types[r]) && Ends(KidsOf(types), Node(r, Plain(false)))
    decreases Visits(types, Node(id, Plain(false)))
  {
    var n := Node(id, Plain(false));
    if IsModOrTypedef(types[id]) && Ends(KidsOf(types), n) then
      SkipStep(types, id);
      Skip(types, types[id].ref)
    else id
  }

  lemma SkipStep(types: seq<Type>, id: nat)
    requires ValidBtf(types) && id < |types| && IsModOrTypedef(types[id]) && Ends(KidsOf(types), Node(id, Plain(false)))
    ensures
      var k := Node(types[id].ref, Plain(false));
      && types[id].ref < |types| && Ends(KidsOf(types), k)
      && Visits(types, k) < Visits(types, Node(id, Plain(false)))
  {
    var n := Node(id, Plain(false));
    var k := Kids(types, n)[0];
    KidInTable(types, n, k);
    VisitsShrink(types, n, k);
  }

  /** The type of member `idx` of a composite, or the element type of an array. */
  function Part(types: seq<Type>, id: nat, idx: int): Option<nat>
    requires id < |types|
  {
    match types[id]
    case Composite(_, _, _, _, ms) => if 0 <= idx < |ms| then Some(ms[idx].typ) else None
    case Array(e, _, _) => Some(e)
    case _ => None
  }

  lemma PartInTable(types: seq<Type>, id: nat, idx: int)
    requires ValidBtf(types) && id < |types|
    ensures Part(types, id, idx).Some? ==> Part(types, id, idx).value < |types|
  {
    if types[id].Composite? && 0 <= idx < |types[id].members| {
      assert Refs(types[id])[idx] in Refs(types[id]);
    } else if types[id].Array? {
      assert Refs(types[id])[0] in Refs(types[id]);
    }
  }

  /** The type reached by the first step of an access. */
  ghost function First(types: seq<Type>, id: nat, idxs: seq<int>): (r: Option<nat>)
    requires ValidBtf(types) && id < |types| && idxs != []
    ensures r.Some? ==> r.value < |types|
  {
    PartInTable(types, Skip(types, id), idxs[0]);
    Part(types, Skip(types, id), idxs[0])
  }

  /** No member index of the access is beyond the members of the composite it selects from. */
  ghost predicate InBounds(types: seq<Type>, id: nat, idxs: seq<int>)
    requires ValidBtf(types) && id < |types|
    decreases |idxs|
  {
    idxs == [] ||
    var s := Skip(types, id);
    && (types[s].Composite? ==> 0 <= idxs[0] < |types[s].members|)
    && (First(types, id, idxs).Some? ==> InBounds(types, First(types, id, idxs).value, idxs[1..]))
  }

  /** The visits of the members along the access return, up to the first that fails. */
  ghost predicate AccessEnds(types: seq<Type>, id: nat, idxs: seq<int>)
    requires ValidBtf(types) && id < |types|
    decreases |idxs|
  {
    idxs == [] ||
    match First(types, id, idxs)
    case None => true
    case Some(part) =>
      if types[Skip(types, id)].Array? then AccessEnds(types, part, idxs[1..])
      else
        var n := Node(part, Plain(false));
        CanVisit(types, n) && (AllSupported(types, Visits(types, n)) ==> AccessEnds(types, part, idxs[1..]))
  }

  /** Member `idx` of composite `s` and everything its type leads to, added to `m`. */
  ghost function AddMember(src: seq<Type>, m: Marks, s: nat, idx: nat): Marks
    requires s < |src| && src[s].Composite? && idx < |src[s].members|
  {
    Marking(src, m.(members := m.members + {(s, idx)}), Visits(src, Node(src[s].members[idx].typ, Plain(false))))
  }

  /** The marks after recording the access `idxs` from type `id`, whose own visit is done;
      `None` when a kind is unsupported. */
  ghost function FieldMarks(src: seq<Type>, m: Marks, id: nat, idxs: seq<int>): Option<Marks>
    requires ValidBtf(src) && id < |src| && InBounds(src, id, idxs)
    decreases |idxs|
  {
    if idxs == [] then Some(m) else
    var s := Skip(src, id);
    match First(src, id, idxs)
    case None => None
    case Some(part) =>
      if src[s].Array? then FieldMarks(src, m, part, idxs[1..])
      else if AllSupported(src, Visits(src, Node(part, Plain(false)))) then
        FieldMarks(src, AddMember(src, m, s, idxs[0]), part, idxs[1..])
      else None
  }

  /** The accessors behind the first one, which indexes the root itself. */
  function Selectors(raw: seq<int>): seq<int> { if raw == [] then [] else raw[1..] }

  /** The marks after recording the raw access specification `raw` on `root`. */
  ghost function AccessMarks(src: seq<Type>, m: Marks, root: nat, raw: seq<int>): Option<Marks>
    requires ValidBtf(src) && root < |src| && InBounds(src, root, Selectors(raw))
  {
    var vs := Visits(src, Node(root, Plain(false)));
    if !AllSupported(src, vs) then None else FieldMarks(src, Marking(src, m, vs), root, Selectors(raw))
  }

  class Recorder {
    const src: seq<Type>
    var marks: Marks

    constructor (src: seq<Type>)
      ensures this.src == src && marks == Marks({}, {})
    {
      this.src, this.marks := src, Marks({}, {});
    }

    /** btfgen_mark_type */
    method MarkType(id: nat, follow: bool) returns (ok: bool)
      requires CanVisit(src, Node(id, Plain(follow)))
      modifies this
      ensures Marked(src, old(marks), Visits(src, Node(id, Plain(follow))), ok, marks)
      decreases Pending(src, Node(id, Plain(follow))), 3
    {
      hide Marked;
      hide Visits;
      hide VisitsAll;
      hide Pending;
      hide Ends;
      hide ValidBtf;
      if id == 0 {
        VoidMarked(src, Node(id, Plain(follow)), marks);
        return true;
      }
      ghost var n := Node(id, Plain(follow));
      marks := marks.(types := marks.types + {id});
      match src[id] {
      case Fwd(_, _, _) | Other(_, _) =>
        Unsupported(src, n, old(marks));
        return false;
      case Mod(TypeTag, _, _) =>
        Unsupported(src, n, old(marks));
        return false;
      case Void | Leaf(_, _, _, _, _, _) | Composite(_, _, _, _, _) =>
        SelfMarked(src, n, old(marks));
      case Ptr(r) =>
        SelfMarked(src, n, old(marks));
        if follow {
          ok := MarkKid(r, follow, 0, n, old(marks));
          if !ok { return; }
        }
      case Mod(_, _, r) =>
        SelfMarked(src, n, old(marks));
        ok := MarkKid(r, follow, 0, n, old(marks));
        if !ok { return; }
      case Typedef(_, r) =>
        SelfMarked(src, n, old(marks));
        ok := MarkKid(r, follow, 0, n, old(marks));
        if !ok { return; }
      case Array(e, x, _) =>
        SelfMarked(src, n, old(marks));
        ok := MarkKid(e, follow, 0, n, old(marks));
        if !ok { return; }
        ok := MarkKid(x, follow, 1, n, old(marks));
        if !ok { return; }
      case FuncProto(r, ps) =>
        SelfMarked(src, n, old(marks));
        ok := MarkKid(r, follow, 0, n, old(marks));
        if !ok { return; }
        ok := MarkParams(ps, follow, n, old(marks));
        if !ok { return; }
      }
      AllKids(src, n);
      return true;
    }

    /** The parameter loop of btfgen_mark_type. */
    method MarkParams(ps: seq<Param>, follow: bool, ghost n: Node, ghost m0: Marks)
      returns (ok: bool)
      requires CanVisit(src, n) && n.id != 0 && n.mode == Plain(follow)
      requires src[n.id].FuncProto? && src[n.id].params == ps
      requires Marked(src, m0, Partial(src, n, 1), true, marks)
      modifies this
      ensures ok ==> Marked(src, m0, Partial(src, n, |Kids(src, n)|), true, marks)
      ensures !ok ==> Marked(src, m0, Visits(src, n), false, marks)
      decreases Pending(src, n), 2
    {
      hide Marked;
      hide Visits;
      hide VisitsAll;
      hide Pending;
      hide Ends;
      hide ValidBtf;
      for i := 0 to |ps|
        invariant Marked(src, m0, Partial(src, n, i + 1), true, marks)
      {
        ok := MarkKid(ps[i].typ, follow, i + 1, n, m0);
        if !ok { return; }
      }
      return true;
    }

    /** A recursive call of btfgen_mark_type, for the `i`th reference of the type visited by `n`. */
    method MarkKid(id: nat, follow: bool, ghost i: nat, ghost n: Node, ghost m0: Marks)
      returns (ok: bool)
      requires CanVisit(src, n) && n.id != 0 && i < |Kids(src, n)|
      requires Kids(src, n)[i] == Node(id, Plain(follow))
      requires Marked(src, m0, Partial(src, n, i), true, marks)
      modifies this
      ensures Marked(src, m0, Partial(src, n, i + 1), ok, marks)
      ensures !ok ==> Marked(src, m0, Visits(src, n), false, marks)
      decreases Pending(src, n), 1
    {
      KidCanVisit(src, n, i);
      ok := MarkType(id, follow);
      KidStep(src, n, i, m0, old(marks), ok, marks);
    }

    /** btfgen_mark_type_match */
    method MarkTypeMatch(id: nat, behind: bool) returns (ok: bool)
      requires CanVisit(src, Node(id, Match(behind)))
      modifies this
      ensures Marked(src, old(marks), Visits(src, Node(id, Match(behind))), ok, marks)
      decreases Pending(src, Node(id, Match(behind))), 4
    {
      hide Marked;
      hide Visits;
      hide VisitsAll;
      hide Pending;
      hide Ends;
      hide ValidBtf;
      if id == 0 {
        VoidMarked(src, Node(id, Match(behind)), marks);
        return true;
      }
      ghost var n := Node(id, Match(behind));
      marks := marks.(types := marks.types + {id});
      if src[id].Other? || (src[id].Mod? && src[id].mod == TypeTag) {
        Unsupported(src, n, old(marks));
        return false;
      }
      if src[id].Composite? && !behind {
        ok := MatchMembers(id, old(marks));
        return;
      }
      SelfMarked(src, n, old(marks));
      ok := MatchRefs(id, behind, old(marks));
    }

    /** The references of any other type. */
    method MatchRefs(id: nat, behind: bool, ghost m0: Marks) returns (ok: bool)
      requires CanVisit(src, Node(id, Match(behind))) && id != 0 && (src[id].Composite? ==> behind)
      requires Marked(src, m0, Partial(src, Node(id, Match(behind)), 0), true, marks)
      modifies this
      ensures Marked(src, m0, Visits(src, Node(id, Match(behind))), ok, marks)
      decreases Pending(src, Node(id, Match(behind))), 3
    {
      hide Marked;
      hide Visits;
      hide VisitsAll;
      hide Pending;
      hide Ends;
      hide ValidBtf;
      ghost var n := Node(id, Match(behind));
      match src[id] {
      case Ptr(r) =>
        ok := MatchKid(r, true, 0, n, m0);
        if !ok { return; }
      case Mod(_, _, r) =>
        ok := MatchKid(r, behind, 0, n, m0);
        if !ok { return; }
      case Typedef(_, r) =>
        ok := MatchKid(r, behind, 0, n, m0);
        if !ok { return; }
      case Fwd(_, _, r) =>
        ok := MatchKid(r, behind, 0, n, m0);
        if !ok { return; }
      case Array(e, x, _) =>
        ok := MatchKid(e, false, 0, n, m0);
        if !ok { return; }
        ok := MatchKid(x, false, 1, n, m0);
        if !ok { return; }
      case FuncProto(r, ps) =>
        ok := MatchKid(r, false, 0, n, m0);
        if !ok { return; }
        ok := MatchParams(ps, n, m0);
        if !ok { return; }
      case _ =>
      }
      AllKids(src, n);
      return true;
    }

    /** The parameter loop of btfgen_mark_type_match. */
    method MatchParams(ps: seq<Param>, ghost n: Node, ghost m0: Marks) returns (ok: bool)
      requires CanVisit(src, n) && n.id != 0 && n.mode.Match?
      requires src[n.id].FuncProto? && src[n.id].params == ps
      requires Marked(src, m0, Partial(src, n, 1), true, marks)
      modifies this
      ensures ok ==> Marked(src, m0, Partial(src, n, |Kids(src, n)|), true, marks)
      ensures !ok ==> Marked(src, m0, Visits(src, n), false, marks)
      decreases Pending(src, n), 2
    {
      hide Marked;
      hide Visits;
      hide VisitsAll;
      hide Pending;
      hide Ends;
      hide ValidBtf;
      for i := 0 to |ps|
        invariant Marked(src, m0, Partial(src, n, i + 1), true, marks)
      {
        ok := MatchKid(ps[i].typ, false, i + 1, n, m0);
        if !ok { return; }
      }
      return true;
    }

    /** The member loop of btfgen_mark_type_match: mark a member, then match its type. */
    method MatchMembers(id: nat, ghost m0: Marks) returns (ok: bool)
      requires CanVisit(src, Node(id, Match(false))) && id != 0 && src[id].Composite?
      requires marks == m0.(types := m0.types + {id})
      modifies this
      ensures Marked(src, m0, Visits(src, Node(id, Match(false))), ok, marks)
      decreases Pending(src, Node(id, Match(false))), 2
    {
      hide Marked;
      hide Visits;
      ghost var n := Node(id, Match(false));
      CompositeMarked(src, n, m0);
      for i := 0 to |src[id].members|
        invariant MembersDone(src, n, m0, i, marks)
      {
        ok := MatchMember(id, i, m0);
        if !ok { return; }
      }
      AllKids(src, n);
      assert Plus(marks, MembersAt(src, id)) == marks;
      return true;
    }

    method MatchMember(id: nat, i: nat, ghost m0: Marks) returns (ok: bool)
      requires CanVisit(src, Node(id, Match(false))) && id != 0 && src[id].Composite? && i < |src[id].members|
      requires MembersDone(src, Node(id, Match(false)), m0, i, marks)
      modifies this
      ensures ok ==> MembersDone(src, Node(id, Match(false)), m0, i + 1, marks)
      ensures !ok ==> Marked(src, m0, Visits(src, Node(id, Match(false))), false, marks)
      decreases Pending(src, Node(id, Match(false))), 1
    {
      ghost var n, all := Node(id, Match(false)), MembersAt(src, id);
      marks := marks.(members := marks.members + {(id, i)});
      ghost var m1 := marks;
      KidCanVisit(src, n, i);
      assert Plus(m1, all) == Plus(old(marks), all) by {
        assert (id, i) in all;
      }
      ok := MarkTypeMatch(src[id].members[i].typ, false);
      MarkedPlus(src, m1, Visits(src, Kids(src, n)[i]), ok, marks, all);
      KidStep(src, n, i, m0, Plus(m1, all), ok, Plus(marks, all));
    }

    method MatchKid(id: nat, behind: bool, ghost i: nat, ghost n: Node, ghost m0: Marks)
      returns (ok: bool)
      requires CanVisit(src, n) && n.id != 0 && i < |Kids(src, n)|
      requires Kids(src, n)[i] == Node(id, Match(behind))
      requires Marked(src, m0, Partial(src, n, i), true, marks)
      modifies this
      ensures Marked(src, m0, Partial(src, n, i + 1), ok, marks)
      ensures !ok ==> Marked(src, m0, Visits(src, n), false, marks)
      decreases Pending(src, n), 1
    {
      KidCanVisit(src, n, i);
      ok := MarkTypeMatch(id, behind);
      KidStep(src, n, i, m0, old(marks), ok, marks);
    }

    /** The loop that skips modifiers and typedefs. */
    method SkipMods(start: nat) returns (id: nat)
      requires ValidBtf(src) && start < |src| && Ends(KidsOf(src), Node(start, Plain(false)))
      ensures id == Skip(src, start)
    {
      id := start;
      while IsModOrTypedef(src[id])
        invariant id < |src| && Ends(KidsOf(src), Node(id, Plain(false))) && Skip(src, id) == Skip(src, start)
        decreases Visits(src, Node(id, Plain(false)))
      {
        SkipStep(src, id);
        id := src[id].ref;
      }
    }

    /** One accessor of btfgen_record_field_relo. */
    method RecordStep(start: nat, idxs: seq<int>) returns (ok: bool, id: nat)
      requires ValidBtf(src) && start < |src| && Ends(KidsOf(src), Node(start, Plain(false)))
      requires idxs != [] && InBounds(src, start, idxs) && AccessEnds(src, start, idxs)
      modifies this
      ensures !ok ==> FieldMarks(src, old(marks), start, idxs) == None
      ensures ok ==>
        && id < |src| && Ends(KidsOf(src), Node(id, Plain(false)))
        && InBounds(src, id, idxs[1..]) && AccessEnds(src, id, idxs[1..])
        && FieldMarks(src, marks, id, idxs[1..]) == FieldMarks(src, old(marks), start, idxs)
    {
      id := SkipMods(start);
      ghost var s := id;
      match src[id] {
      case Composite(_, _, _, _, ms) =>
        var idx := idxs[0];
        marks := marks.(members := marks.members + {(id, idx)});
        id := ms[idx].typ;
        ok := MarkType(id, false);
        if ok {
          SuccessEnds(src, Node(id, Plain(false)));
        }
      case Array(e, _, _) =>
        id := e;
        ok := true;
        ElementEnds(src, s);
      case _ =>
        ok := false;
      }
    }

    /** btfgen_record_field_relo */
    method RecordFieldRelo(root: nat, raw: seq<int>) returns (ok: bool)
      requires CanVisit(src, Node(root, Plain(false))) && InBounds(src, root, Selectors(raw))
      requires AllSupported(src, Visits(src, Node(root, Plain(false)))) ==> AccessEnds(src, root, Selectors(raw))
      modifies this
      ensures ok == AccessMarks(src, old(marks), root, raw).Some?
      ensures ok ==> marks == AccessMarks(src, old(marks), root, raw).value
    {
      hide Visits;
      hide Ends;
      hide ValidBtf;
      hide AccessEnds;
      hide InBounds;
      hide FieldMarks;
      var id: nat := root;
      ok := MarkType(id, false);
      if !ok {
        return;
      }
      SuccessEnds(src, Node(root, Plain(false)));
      if raw == [] {
        FieldMarksDone(src, marks, id);
        return;
      }
      ghost var goal := FieldMarks(src, marks, root, raw[1..]);
      var i := 1;
      while i < |raw|
        invariant 1 <= i <= |raw| && id < |src| && Ends(KidsOf(src), Node(id, Plain(false)))
        invariant InBounds(src, id, raw[i..]) && AccessEnds(src, id, raw[i..])
        invariant FieldMarks(src, marks, id, raw[i..]) == goal
      {
        assert raw[i..][1..] == raw[i + 1..];
        ok, id := RecordStep(id, raw[i..]);
        if !ok {
          return;
        }
        i := i + 1;
      }
      assert raw[i..] == [];
      FieldMarksDone(src, marks, id);
      return true;
    }
  }

  lemma FieldMarksDone(src: seq<Type>, m: Marks, id: nat)
    requires ValidBtf(src) && id < |src|
    ensures InBounds(src, id, []) && FieldMarks(src, m, id, []) == Some(m)
  {
  }

  lemma ElementEnds(types: seq<Type>, id: nat)
    requires ValidBtf(types) && id < |types| && types[id].Array? && Ends(KidsOf(types), Node(id, Plain(false)))
    ensures types[id].elem < |types| && Ends(KidsOf(types), Node(types[id].elem, Plain(false)))
  {
    hide Ends;
    var n := Node(id, Plain(false));
    var k := Kids(types, n)[0];
    hide ValidBtf;
    assert KidsOf(types)(n, k);
    KidInTable(types, n, k);
    EndsOn(KidsOf(types), n, k);
  }
}

/**
  What marking achieves: marks stay closed under references, and recording a
  field access keeps that access with the least closed set of marks.
 */
module BtfClosure {
  import opened Wrappers
  import opened Btf
  import opened BtfMark
  import opened BtfRecord
  import opened Chains

  // ---------- marks are closed ----------

  ghost predicate Has(m: Marks, id: nat) { id == 0 || id in m.types }

  /** The references of a marked type that may not be lost. */
  ghost predicate KeepsRefs(src: seq<Type>, m: Marks, id: nat)
    requires id < |src|
  {
    match src[id]
    case Mod(k, _, r) => k != TypeTag && Has(m, r)
    case Typedef(_, r) => Has(m, r)
    case Fwd(_, _, r) => Has(m, r)
    case Array(e, x, _) => Has(m, e) && Has(m, x)
    case FuncProto(r, ps) => Has(m, r) && forall i :: 0 <= i < |ps| ==> Has(m, ps[i].typ)
    case Other(_, _) => false
    case _ => true
  }

  ghost predicate KeepsMember(src: seq<Type>, m: Marks, x: (nat, nat)) {
    x.0 in m.types && x.0 < |src| && src[x.0].Composite? && x.1 < |src[x.0].members| && Has(m, src[x.0].members[x.1].typ)
  }

  /** Every reference of a marked modifier, array or prototype, and every marked member's type,
      is marked or void.  Only the targets of pointers may be missing. */
  ghost predicate Closed(src: seq<Type>, m: Marks) {
    && (forall id :: id in m.types ==> 0 < id < |src| && KeepsRefs(src, m, id))
    && (forall x :: x in m.members ==> KeepsMember(src, m, x))
  }

  lemma VisitedKid(src: seq<Type>, m: Marks, n: Node, a: Node, k: Node)
    requires ValidBtf(src) && a in Visits(src, n) && k in Kids(src, a)
    ensures Has(Marking(src, m, Visits(src, n)), k.id)
  {
    if k.id != 0 {
      VisitsClosed(src, n, a, k);
    }
  }

  /** A successful visit keeps the marks closed. */
  lemma VisitKeepsClosed(src: seq<Type>, m: Marks, n: Node)
    requires ValidBtf(src) && Closed(src, m) && AllSupported(src, Visits(src, n))
    ensures Closed(src, Marking(src, m, Visits(src, n)))
  {
    var vs := Visits(src, n);
    var after := Marking(src, m, vs);
    forall id | id in after.types
      ensures 0 < id < |src| && KeepsRefs(src, after, id)
    {
      if id !in m.types {
        var a :| a in vs && a.id == id;
        VisitsInTable(src, n, a);
        VisitKeepsRefs(src, m, n, a);
      }
    }
    forall x | x in after.members
      ensures KeepsMember(src, after, x)
    {
      if x !in m.members {
        var a, i :| a in vs && a.id < |src| && src[a.id].Composite? && a.mode == Match(false)
                && 0 <= i < |src[a.id].members| && x == (a.id, i);
        VisitsInTable(src, n, a);
        assert Kids(src, a)[i] == Node(src[a.id].members[i].typ, a.mode);
        VisitedKid(src, m, n, a, Kids(src, a)[i]);
      }
    }
  }

  lemma VisitKeepsRefs(src: seq<Type>, m: Marks, n: Node, a: Node)
    requires ValidBtf(src) && a in Visits(src, n) && 0 < a.id < |src|
    requires AllSupported(src, Visits(src, n))
    ensures KeepsRefs(src, Marking(src, m, Visits(src, n)), a.id)
  {
    assert Supported(src, a);
    forall k | k in Kids(src, a)
      ensures Has(Marking(src, m, Visits(src, n)), k.id)
    {
      VisitedKid(src, m, n, a, k);
    }
    KidsKeepRefs(src, Marking(src, m, Visits(src, n)), a);
  }

  lemma KidsKeepRefs(src: seq<Type>, m: Marks, a: Node)
    requires 0 < a.id < |src| && Supported(src, a)
    requires forall k :: k in Kids(src, a) ==> Has(m, k.id)
    ensures KeepsRefs(src, m, a.id)
  {
    var ks := Kids(src, a);
    assert forall i :: 0 <= i < |ks| ==> Has(m, ks[i].id);
    if src[a.id].FuncProto? {
      var ps := src[a.id].params;
      forall i | 0 <= i < |ps|
        ensures Has(m, ps[i].typ)
      {
        assert ks[i + 1].id == ps[i].typ;
      }
    }
  }

  /** A visit that does not follow pointers marks no more than any closed set must hold. */
  lemma VisitIsLeast(src: seq<Type>, n: Node, big: Marks, a: Node)
    requires ValidBtf(src) && n.mode == Plain(false) && Closed(src, big) && Has(big, n.id)
    requires a in Visits(src, n)
    ensures a.id in big.types && a.mode == Plain(false)
  {
    var path :| IsChain(KidsOf(src), path) && path[0] == n && path[|path| - 1] == a;
    ChainStaysMarked(src, path, big);
  }

  lemma {:induction false} ChainStaysMarked(src: seq<Type>, path: seq<Node>, big: Marks)
    requires ValidBtf(src) && IsChain(KidsOf(src), path) && path[0].mode == Plain(false)
    requires Closed(src, big) && Has(big, path[0].id)
    ensures Has(big, path[|path| - 1].id) && path[|path| - 1].mode == Plain(false)
  {
    hide Closed;
    hide ValidBtf;
    hide Kids;
    var n := |path| - 1;
    if n > 0 {
      ChainStaysMarked(src, path[..n], big);
      assert KidsOf(src)(path[n - 1], path[n]);
      KidStaysMarked(src, path[n - 1], path[n], big);
    }
  }

  lemma KidStaysMarked(src: seq<Type>, a: Node, k: Node, big: Marks)
    requires ValidBtf(src) && k in Kids(src, a) && a.mode == Plain(false) && Closed(src, big) && Has(big, a.id)
    ensures Has(big, k.id) && k.mode == Plain(false)
  {
    KidInTable(src, a, k);
    assert KeepsRefs(src, big, a.id);
  }

  // ---------- recording a field access ----------

  /** Every type and member along the access is marked. */
  ghost predicate Kept(types: seq<Type>, m: Marks, id: nat, idxs: seq<int>)
    requires ValidBtf(types) && id < |types|
    decreases |idxs|
  {
    && Has(m, id)
    && (idxs == [] ||
        var s := Skip(types, id);
        && (types[s].Composite? ==> 0 <= idxs[0] && (s, idxs[0]) in m.members)
        && First(types, id, idxs).Some?
        && Kept(types, m, First(types, id, idxs).value, idxs[1..]))
  }

  lemma {:induction false} KeptMonotone(types: seq<Type>, m: Marks, big: Marks, id: nat, idxs: seq<int>)
    requires ValidBtf(types) && id < |types| && Kept(types, m, id, idxs) && Within(m, big)
    ensures Kept(types, big, id, idxs)
    decreases |idxs|
  {
    if idxs != [] {
      KeptMonotone(types, m, big, First(types, id, idxs).value, idxs[1..]);
    }
  }

  /** In closed marks, what a marked modifier stands for is marked too. */
  lemma {:induction false} SkipKept(types: seq<Type>, m: Marks, id: nat)
    requires ValidBtf(types) && id < |types| && Closed(types, m) && Has(m, id)
    ensures Has(m, Skip(types, id))
    decreases Visits(types, Node(id, Plain(false)))
  {
    if IsModOrTypedef(types[id]) && Ends(KidsOf(types), Node(id, Plain(false))) {
      SkipStep(types, id);
      assert KeepsRefs(types, m, id);
      SkipKept(types, m, types[id].ref);
    }
  }

  /** Recording keeps the marks closed, loses none of them and keeps the access. */
  lemma {:induction false} FieldMarksKeep(src: seq<Type>, m: Marks, id: nat, idxs: seq<int>)
    requires ValidBtf(src) && id < |src| && Closed(src, m) && Has(m, id)
    requires InBounds(src, id, idxs) && FieldMarks(src, m, id, idxs).Some?
    ensures
      var after := FieldMarks(src, m, id, idxs).value;
      Closed(src, after) && Within(m, after) && Kept(src, after, id, idxs)
    decreases |idxs|
  {
    hide Visits;
    hide ValidBtf;
    hide Closed;
    if idxs != [] {
      var s := Skip(src, id);
      SkipKept(src, m, id);
      var part := First(src, id, idxs).value;
      if src[s].Composite? {
        CompositeMarkedInside(src, m, s);
        AddMemberKeeps(src, m, s, idxs[0]);
        FieldMarksKeep(src, AddMember(src, m, s, idxs[0]), part, idxs[1..]);
      } else {
        ElementMarked(src, m, s);
        FieldMarksKeep(src, m, part, idxs[1..]);
      }
    }
  }

  lemma CompositeMarkedInside(src: seq<Type>, m: Marks, s: nat)
    requires ValidBtf(src) && s < |src| && src[s].Composite? && Has(m, s)
    ensures s in m.types
  {
  }

  lemma ElementMarked(src: seq<Type>, m: Marks, s: nat)
    requires ValidBtf(src) && s < |src| && src[s].Array? && Closed(src, m) && Has(m, s)
    ensures Has(m, src[s].elem)
  {
    assert KeepsRefs(src, m, s);
  }

  lemma AddMemberKeeps(src: seq<Type>, m: Marks, s: nat, idx: nat)
    requires ValidBtf(src) && Closed(src, m) && s in m.types && src[s].Composite? && idx < |src[s].members|
    requires AllSupported(src, Visits(src, Node(src[s].members[idx].typ, Plain(false))))
    ensures
      var after := AddMember(src, m, s, idx);
      && Closed(src, after) && Within(m, after)
      && Has(after, src[s].members[idx].typ) && (s, idx) in after.members
  {
    var n := Node(src[s].members[idx].typ, Plain(false));
    PartInTable(src, s, idx);
    var visited := Marking(src, m, Visits(src, n));
    VisitKeepsClosed(src, m, n);
    VisitsItself(src, n);
    MemberKeepsClosed(src, visited, s, idx);
    assert AddMember(src, m, s, idx) == visited.(members := visited.members + {(s, idx)});
  }

  lemma VisitsItself(src: seq<Type>, n: Node)
    requires n.id < |src|
    ensures n.id != 0 ==> n in Visits(src, n)
  {
    IsNode(src, n);
    LeadsSelf(KidsOf(src), n);
  }

  lemma MemberKeepsClosed(src: seq<Type>, m: Marks, s: nat, idx: nat)
    requires Closed(src, m) && s in m.types && src[s].Composite? && idx < |src[s].members|
    requires Has(m, src[s].members[idx].typ)
    ensures Closed(src, m.(members := m.members + {(s, idx)}))
  {
    var after := m.(members := m.members + {(s, idx)});
    forall id | id in after.types
      ensures 0 < id < |src| && KeepsRefs(src, after, id)
    {
      assert KeepsRefs(src, m, id);
    }
    forall x | x in after.members
      ensures KeepsMember(src, after, x)
    {
      assert x != (s, idx) ==> KeepsMember(src, m, x);
    }
  }

  lemma VisitWithin(src: seq<Type>, m: Marks, id: nat, big: Marks)
    requires ValidBtf(src) && Closed(src, big) && Has(big, id) && Within(m, big)
    ensures Within(Marking(src, m, Visits(src, Node(id, Plain(false)))), big)
  {
    var n := Node(id, Plain(false));
    var vs := Visits(src, n);
    forall a | a in vs
      ensures a.id in big.types && a.mode == Plain(false)
    {
      VisitIsLeast(src, n, big, a);
    }
    assert MembersOf(src, vs) == {};
  }

  /** Recording marks no more than any closed marks that keep the access. */
  lemma {:induction false} FieldMarksLeast(src: seq<Type>, m: Marks, id: nat, idxs: seq<int>, big: Marks)
    requires ValidBtf(src) && id < |src| && InBounds(src, id, idxs) && FieldMarks(src, m, id, idxs).Some?
    requires Closed(src, big) && Within(m, big) && Kept(src, big, id, idxs)
    ensures Within(FieldMarks(src, m, id, idxs).value, big)
    decreases |idxs|
  {
    hide Visits;
    hide ValidBtf;
    hide Closed;
    if idxs != [] {
      var s := Skip(src, id);
      var part := First(src, id, idxs).value;
      if src[s].Composite? {
        VisitWithin(src, m.(members := m.members + {(s, idxs[0])}), part, big);
        FieldMarksLeast(src, AddMember(src, m, s, idxs[0]), part, idxs[1..], big);
      } else {
        FieldMarksLeast(src, m, part, idxs[1..], big);
      }
    }
  }

  ghost predicate AccessKept(src: seq<Type>, m: Marks, root: nat, raw: seq<int>)
    requires ValidBtf(src) && root < |src|
  {
    Kept(src, m, root, Selectors(raw))
  }

  /** Recording a field access yields the least closed marks above `m` that keep the access. */
  lemma AccessMarksAreLeast(src: seq<Type>, m: Marks, root: nat, raw: seq<int>)
    requires ValidBtf(src) && root < |src| && InBounds(src, root, Selectors(raw)) && Closed(src, m)
    requires AccessMarks(src, m, root, raw).Some?
    ensures
      var after := AccessMarks(src, m, root, raw).value;
      && Closed(src, after) && Within(m, after) && AccessKept(src, after, root, raw)
      && forall big :: Closed(src, big) && Within(m, big) && AccessKept(src, big, root, raw) ==> Within(after, big)
  {
    hide Visits;
    hide ValidBtf;
    hide Closed;
    var n := Node(root, Plain(false));
    var first := Marking(src, m, Visits(src, n));
    VisitKeepsClosed(src, m, n);
    VisitsItself(src, n);
    FieldMarksKeep(src, first, root, Selectors(raw));
    forall big | Closed(src, big) && Within(m, big) && AccessKept(src, big, root, raw)
      ensures Within(AccessMarks(src, m, root, raw).value, big)
    {
      VisitWithin(src, m, root, big);
      FieldMarksLeast(src, first, root, Selectors(raw), big);
    }
  }
}

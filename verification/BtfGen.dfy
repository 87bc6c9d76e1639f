/**
  The whole minimiser: record the relocations of all objects, then generate.
 */
module BtfGen {
  import opened Wrappers
  import opened Btf
  import opened BtfMark
  import opened BtfRecord
  import opened BtfClosure
  import opened BtfMinimise
  import opened BtfTheorems
  import opened BtfField
  import opened BtfEnds
  import opened Chains

  datatype Relo =
    | Field(root: nat, raw: seq<int>)
    | TypeBased(root: nat)
    | TypeMatches(root: nat)
    | EnumValue(root: nat)
    | LocalTypeId
    | UnknownKind

  /** The target specifications that relocation processing hands over: existing types, member
      indices inside their composite. */
  ghost predicate Resolved(src: seq<Type>, r: Relo)
    requires ValidBtf(src)
  {
    match r
    case Field(root, raw) => root < |src| && InBounds(src, root, Selectors(raw))
    case TypeBased(root) => root < |src|
    case TypeMatches(root) => root < |src|
    case EnumValue(root) => root < |src|
    case _ => true
  }

  /** Recording the relocation returns: so do the visits it makes. */
  ghost predicate ReloEnds(src: seq<Type>, r: Relo)
    requires ValidBtf(src) && Resolved(src, r)
  {
    match r
    case Field(root, raw) =>
      && CanVisit(src, Node(root, Plain(false)))
      && (AllSupported(src, Visits(src, Node(root, Plain(false)))) ==> AccessEnds(src, root, Selectors(raw)))
    case TypeBased(root) => CanVisit(src, Node(root, Plain(true)))
    case TypeMatches(root) => CanVisit(src, Node(root, Match(false)))
    case EnumValue(root) => CanVisit(src, Node(root, Plain(false)))
    case _ => true
  }

  ghost predicate VisitsKept(src: seq<Type>, m: Marks, n: Node) {
    Ids(Visits(src, n)) <= m.types && MembersOf(src, Visits(src, n)) <= m.members
  }

  /** What a relocation needs is marked. */
  ghost predicate Satisfied(src: seq<Type>, m: Marks, r: Relo)
    requires ValidBtf(src) && Resolved(src, r)
  {
    match r
    case Field(root, raw) => AccessKept(src, m, root, raw)
    case TypeBased(root) => VisitsKept(src, m, Node(root, Plain(true)))
    case TypeMatches(root) => VisitsKept(src, m, Node(root, Match(false)))
    case EnumValue(root) => VisitsKept(src, m, Node(root, Plain(false)))
    case LocalTypeId => true
    case UnknownKind => false
  }

  lemma SatisfiedMonotone(src: seq<Type>, m: Marks, big: Marks, r: Relo)
    requires ValidBtf(src) && Resolved(src, r) && Satisfied(src, m, r) && Within(m, big)
    ensures Satisfied(src, big, r)
  {
    if r.Field? {
      KeptMonotone(src, m, big, r.root, Selectors(r.raw));
    }
  }

  /** Every step of the access selects from an array, or a member whose type has only supported kinds. */
  ghost predicate Traceable(src: seq<Type>, id: nat, idxs: seq<int>)
    requires ValidBtf(src) && id < |src|
    decreases |idxs|
  {
    idxs == [] ||
    match First(src, id, idxs)
    case None => false
    case Some(part) =>
      && (src[Skip(src, id)].Array? || AllSupported(src, Visits(src, Node(part, Plain(false)))))
      && Traceable(src, part, idxs[1..])
  }

  lemma {:induction false} TraceableIff(src: seq<Type>, m: Marks, id: nat, idxs: seq<int>)
    requires ValidBtf(src) && id < |src| && InBounds(src, id, idxs)
    ensures FieldMarks(src, m, id, idxs).Some? <==> Traceable(src, id, idxs)
    decreases |idxs|
  {
    hide Visits;
    hide ValidBtf;
    if idxs != [] && First(src, id, idxs).Some? {
      var s, part := Skip(src, id), First(src, id, idxs).value;
      TraceableIff(src, if src[s].Array? then m else AddMember(src, m, s, idxs[0]), part, idxs[1..]);
    }
  }

  /** The relocations that can be recorded: those whose types have only supported kinds. */
  ghost predicate Recordable(src: seq<Type>, r: Relo)
    requires ValidBtf(src) && Resolved(src, r)
  {
    match r
    case Field(root, raw) =>
      AllSupported(src, Visits(src, Node(root, Plain(false)))) && Traceable(src, root, Selectors(raw))
    case TypeBased(root) => AllSupported(src, Visits(src, Node(root, Plain(true))))
    case TypeMatches(root) => AllSupported(src, Visits(src, Node(root, Match(false))))
    case EnumValue(root) => AllSupported(src, Visits(src, Node(root, Plain(false))))
    case LocalTypeId => true
    case UnknownKind => false
  }

  /** `m` lies within all closed marks above `before` that satisfy the relocation. */
  ghost predicate Least(src: seq<Type>, before: Marks, m: Marks, r: Relo)
    requires ValidBtf(src) && Resolved(src, r)
  {
    forall big :: Closed(src, big) && Within(before, big) && Satisfied(src, big, r) ==> Within(m, big)
  }

  /** btfgen_record_reloc */
  method RecordReloc(g: Recorder, r: Relo) returns (ok: bool)
    requires ValidBtf(g.src) && Resolved(g.src, r) && ReloEnds(g.src, r) && Closed(g.src, g.marks)
    modifies g
    ensures ok == Recordable(g.src, r)
    ensures ok ==> Closed(g.src, g.marks) && Within(old(g.marks), g.marks) && Satisfied(g.src, g.marks, r)
    ensures ok ==> Least(g.src, old(g.marks), g.marks, r)
  {
    hide Visits;
    hide ValidBtf;
    hide Closed;
    hide FieldMarks;
    hide Kept;
    match r {
    case Field(root, raw) =>
      ok := g.RecordFieldRelo(root, raw);
      TraceableIff(g.src, Marking(g.src, old(g.marks), Visits(g.src, Node(root, Plain(false)))), root, Selectors(raw));
      if ok {
        AccessMarksAreLeast(g.src, old(g.marks), root, raw);
      }
    case LocalTypeId =>
      ok := true;
    case TypeBased(root) =>
      ok := g.MarkType(root, true);
      if ok {
        VisitKeepsClosed(g.src, old(g.marks), Node(root, Plain(true)));
      }
    case TypeMatches(root) =>
      ok := g.MarkTypeMatch(root, false);
      if ok {
        VisitKeepsClosed(g.src, old(g.marks), Node(root, Match(false)));
      }
    case EnumValue(root) =>
      ok := g.MarkType(root, false);
      if ok {
        VisitKeepsClosed(g.src, old(g.marks), Node(root, Plain(false)));
      }
    case UnknownKind =>
      ok := false;
    }
  }

  /** Closed marks that satisfy the first `n` relocations. */
  ghost predicate Serves(src: seq<Type>, m: Marks, relos: seq<Relo>, n: nat)
    requires ValidBtf(src) && n <= |relos| && forall i :: 0 <= i < |relos| ==> Resolved(src, relos[i])
  {
    Closed(src, m) && forall i :: 0 <= i < n ==> Satisfied(src, m, relos[i])
  }

  /** `m` is the least of all closed marks that satisfy the first `n` relocations. */
  ghost predicate LeastServing(src: seq<Type>, m: Marks, relos: seq<Relo>, n: nat)
    requires ValidBtf(src) && n <= |relos| && forall i :: 0 <= i < |relos| ==> Resolved(src, relos[i])
  {
    Serves(src, m, relos, n) && forall big :: Serves(src, big, relos, n) ==> Within(m, big)
  }

  lemma LeastServingStep(src: seq<Type>, m: Marks, after: Marks, relos: seq<Relo>, n: nat)
    requires ValidBtf(src) && n < |relos| && forall i :: 0 <= i < |relos| ==> Resolved(src, relos[i])
    requires LeastServing(src, m, relos, n) && Closed(src, after) && Within(m, after)
    requires Satisfied(src, after, relos[n]) && Least(src, m, after, relos[n])
    ensures LeastServing(src, after, relos, n + 1)
  {
    hide ValidBtf;
    hide Closed;
    hide Resolved;
    forall i | 0 <= i < n
      ensures Satisfied(src, after, relos[i])
    {
      SatisfiedMonotone(src, m, after, relos[i]);
    }
    hide Satisfied;
    forall big | Serves(src, big, relos, n + 1)
      ensures Within(after, big)
    {
      assert Serves(src, big, relos, n);
    }
  }

  /** minimize_btf: it succeeds exactly when every relocation can be recorded and every marked type can be copied.
      The marks are then the least closed marks that satisfy all relocations, and the output is generated from them. */
  method MinimizeBtf(src: seq<Type>, relos: seq<Relo>)
    returns (r: Option<(seq<nat>, seq<Type>)>, ghost m: Marks)
    requires ValidBtf(src)
    requires forall i :: 0 <= i < |relos| ==> Resolved(src, relos[i])
    requires forall i :: 0 <= i < |relos| && (forall j :: 0 <= j < i ==> Recordable(src, relos[j])) ==>
      ReloEnds(src, relos[i])
    ensures (exists i :: 0 <= i < |relos| && !Recordable(src, relos[i])) ==> r == None
    ensures (forall i :: 0 <= i < |relos| ==> Recordable(src, relos[i])) ==>
      && LeastServing(src, m, relos, |relos|)
      && (r.Some? <==> forall i :: i in m.types ==> Copyable(src[i], i, m.members))
    ensures r.Some? ==> Generated(src, m, r.value.0, r.value.1)
  {
    hide ValidBtf;
    hide Resolved;
    hide ReloEnds;
    hide Recordable;
    hide Satisfied;
    hide Copyable;
    var g := new Recorder(src);
    m := g.marks;
    for n := 0 to |relos|
      invariant g.src == src && LeastServing(src, g.marks, relos, n)
      invariant forall j :: 0 <= j < n ==> Recordable(src, relos[j])
    {
      ghost var before := g.marks;
      var ok := RecordReloc(g, relos[n]);
      if !ok {
        return None, g.marks;
      }
      LeastServingStep(src, before, g.marks, relos, n);
    }
    m := g.marks;
    r := GetBtf(src, g.marks);
  }

  /** Where the raw access specification `raw` leads from `root`. */
  ghost function Follow(types: seq<Type>, ptrSize: nat, root: nat, raw: seq<int>): Option<Reached>
    requires ValidBtf(types) && root < |types| && raw != []
  {
    var size := SizeOf(types, ptrSize, Skip(types, root));
    var step := if size.None? then None else Some(raw[0] * size.value * 8);
    Further(step, Resolve(types, ptrSize, root, None, raw[1..]))
  }

  /** The value of a field relocation. */
  ghost function RelocationValue(types: seq<Type>, ptrSize: nat, kind: FieldKind, root: nat, raw: seq<int>): Option<int>
    requires ValidBtf(types) && root < |types| && raw != []
  {
    var x := Follow(types, ptrSize, root, raw);
    if x.Some? && x.value.typ < |types| then FieldValue(types, ptrSize, kind, x.value) else None
  }

  /** What is read off the type a field access leads to is the same in the output. */
  lemma ValueKept(src: seq<Type>, m: Marks, ids: seq<nat>, out: seq<Type>, ptrSize: nat, kind: FieldKind, x: Reached)
    requires Generated(src, m, ids, out) && ValidBtf(src) && ValidBtf(out) && Has(m, x.typ) && x.typ < |src|
    ensures |ids| == |src| && ids[x.typ] < |out|
    ensures FieldValue(out, ptrSize, kind, x.(typ := ids[x.typ])) == FieldValue(src, ptrSize, kind, x)
  {
    SkipImage(src, m, ids, out, x.typ);
    var t := Skip(src, x.typ);
    ImageOf(src, m, ids, out, t);
    SizeKept(src, m, ids, out, ptrSize, t, 1, MAX_RESOLVE_DEPTH);
    hide Generated;
    hide ValidBtf;
    hide Skip;
    hide ResolveSize;
    LeafKept(src, m, ids, out, t);
    LoadAlike(src[t], out[ids[t]], SizeOf(src, ptrSize, t), x);
    hide LoadFor;
    hide IsSigned;
    hide ValueOf;
  }

  /** The load and the sign of a field depend on the kind, the size and the sign of its type only. */
  lemma LoadAlike(t: Type, t': Type, resolved: Option<nat>, x: Reached)
    requires (t.Leaf? || t'.Leaf? ==> t == t') && (t.Composite? <==> t'.Composite?) && (t.Composite? ==> t.size == t'.size)
    ensures IsSigned(t') == IsSigned(t)
    ensures forall i: nat :: LoadFor(t', resolved, x.(typ := i)) == LoadFor(t, resolved, x)
  {
    hide Cover;
  }

  lemma LeafKept(src: seq<Type>, m: Marks, ids: seq<nat>, out: seq<Type>, t: nat)
    requires Generated(src, m, ids, out) && Has(m, t) && t < |ids| == |src| && ids[t] < |out|
    ensures src[t].Leaf? <==> out[ids[t]].Leaf?
    ensures src[t].Composite? <==> out[ids[t]].Composite?
    ensures src[t].Leaf? ==> out[ids[t]] == src[t]
    ensures src[t].Composite? ==> out[ids[t]].size == src[t].size
  {
    ImageOf(src, m, ids, out, t);
  }

  /** A kept access specification leads to the image of where it leads in the original. */
  lemma FollowPreserved(src: seq<Type>, m: Marks, ids: seq<nat>, out: seq<Type>, ptrSize: nat, root: nat, raw: seq<int>)
    requires Generated(src, m, ids, out) && ValidBtf(src) && ValidBtf(out)
    requires root < |src| && raw != [] && AccessKept(src, m, root, raw)
    ensures |ids| == |src| && ids[root] < |out|
    ensures SameAccess(m, ids, Follow(src, ptrSize, root, raw),
                       Follow(out, ptrSize, ids[root], [raw[0]] + Image(src, m, root, raw[1..])))
  {
    hide Generated;
    hide ValidBtf;
    hide ResolveSize;
    hide Skip;
    hide Resolve;
    ImageOf(src, m, ids, out, root);
    AccessPreserved(src, m, ids, out, ptrSize, root, None, raw[1..]);
    SkipImage(src, m, ids, out, root);
    SizeKept(src, m, ids, out, ptrSize, Skip(src, root), 1, MAX_RESOLVE_DEPTH);
    var image := [raw[0]] + Image(src, m, root, raw[1..]);
    assert image[1..] == Image(src, m, root, raw[1..]);
  }

  /** Every recorded field relocation, of any kind, has in the minimised table the value it has in the original. */
  lemma FieldRelocationPreserved(
      src: seq<Type>, m: Marks, ids: seq<nat>, out: seq<Type>, ptrSize: nat, kind: FieldKind, r: Relo)
    requires Generated(src, m, ids, out) && ValidBtf(src)
    requires r.Field? && r.raw != [] && Resolved(src, r) && Satisfied(src, m, r)
    ensures ValidBtf(out) && r.root < |ids| && ids[r.root] < |out|
    ensures
      RelocationValue(out, ptrSize, kind, ids[r.root], [r.raw[0]] + Image(src, m, r.root, r.raw[1..]))
      == RelocationValue(src, ptrSize, kind, r.root, r.raw)
  {
    hide Generated;
    hide Follow;
    hide FieldValue;
    OutputIsValid(src, m, ids, out);
    hide ValidBtf;
    FollowPreserved(src, m, ids, out, ptrSize, r.root, r.raw);
    var x := Follow(src, ptrSize, r.root, r.raw);
    if x.Some? {
      ValueKept(src, m, ids, out, ptrSize, kind, x.value);
    }
  }

  // ---------- matching does not return on every table ----------

  /** `struct S { void (*f)(struct S); }`: the parameter is matched by value again. */
  const SELF: seq<Type> := [
    Void,
    Composite(false, "S", 8, false, [Member("f", 2, 0)]),
    Ptr(3),
    FuncProto(0, [Param("", 1)])
  ]

  lemma SelfIsValid()
    ensures ValidBtf(SELF)
  {
    assert Refs(SELF[1]) == [2] && Refs(SELF[2]) == [3] && Refs(SELF[3]) == [0, 1];
  }

  /** Matching the structure never returns, however deep the recursion may go. */
  lemma SelfParameterLoops(fuel: nat)
    ensures ValidBtf(SELF) && Run(SELF, Node(1, Match(false)), fuel) == Running
  {
    SelfIsValid();
    SelfCircle();
    ReturnsIff(SELF, Node(1, Match(false)));
  }

  lemma SelfCircle()
    ensures !Ends(CallsOf(SELF), Node(1, Match(false)))
  {
    hide Ends;
    hide Visits;
    hide IsChain;
    var s, f, p := Node(1, Match(false)), Node(2, Match(false)), Node(3, Match(true));
    assert Kids(SELF, s)[0] == f && Kids(SELF, f)[0] == p && Kids(SELF, p)[0].id == 0 && Kids(SELF, p)[1] == s;
    VoidVisits(SELF, Kids(SELF, p)[0]);
    assert CallsAt(SELF, s, 0) && CallsAt(SELF, f, 0) && CallsAt(SELF, p, 1);
    var calls := CallsOf(SELF);
    LeadsSelf(calls, f);
    LeadsOn(calls, f, f, p);
    LeadsOn(calls, f, p, s);
    Circle(calls, s, f);
  }

  /** All the visits made for field, type and enumeration relocations on the same table return. */
  lemma SelfMarks(id: nat, follow: bool)
    requires id < |SELF|
    ensures CanVisit(SELF, Node(id, Plain(follow)))
  {
    hide Ends;
    SelfIsValid();
    var kids := KidsOf(SELF);
    VoidVisits(SELF, Node(0, Plain(follow)));
    assert Kids(SELF, Node(1, Plain(follow))) == [];
    EndsIfAllEnd(kids, Node(1, Plain(follow)));
    assert Kids(SELF, Node(3, Plain(follow))) == [Node(0, Plain(follow)), Node(1, Plain(follow))];
    EndsIfAllEnd(kids, Node(3, Plain(follow)));
    assert Kids(SELF, Node(2, Plain(follow))) == if follow then [Node(3, Plain(follow))] else [];
    EndsIfAllEnd(kids, Node(2, Plain(follow)));
    KidsEndCalls(SELF, Node(id, Plain(follow)));
  }
}

/**
  What the specification of the minimiser says in terms of the table alone: the
  references that are followed, the kinds that are refused, and the sizes and
  offsets that relocations are made of.
 */
module BtfLaws {
  import opened Wrappers
  import opened Bytes
  import opened Btf
  import opened BtfMark
  import opened BtfRecord
  import opened BtfMinimise
  import opened BtfTheorems
  import opened BtfGen
  import opened Chains

  // ---------- the references that marking follows ----------

  /** A path of references through modifiers, typedefs, arrays and prototypes, and through pointers if they
      are followed. */
  ghost predicate PlainPath(types: seq<Type>, follow: bool, path: seq<nat>) {
    |path| > 0 && forall i :: 0 <= i < |path| - 1 ==>
      && 0 < path[i] < |types| && path[i + 1] in Refs(types[path[i]])
      && var t := types[path[i]]; t.Mod? || t.Typedef? || t.Array? || t.FuncProto? || (t.Ptr? && follow)
  }

  lemma PlainKids(types: seq<Type>, follow: bool, i: nat, k: Node)
    ensures k in Kids(types, Node(i, Plain(follow))) <==>
      && 0 < i < |types| && k.id in Refs(types[i]) && k.mode == Plain(follow)
      && var t := types[i]; t.Mod? || t.Typedef? || t.Array? || t.FuncProto? || (t.Ptr? && follow)
  {
    var n := Node(i, Plain(follow));
    if 0 < i < |types| {
      KidsAreRefs(types, n);
      AtHolds(Refs(types[i]), Plain(follow), k);
    }
  }

  lemma AtHolds(ids: seq<nat>, mode: Mode, k: Node)
    ensures k in At(ids, mode) <==> k.id in ids && k.mode == mode
  {
    if k.id in ids && k.mode == mode {
      var i :| 0 <= i < |ids| && ids[i] == k.id;
      assert At(ids, mode)[i] == k;
    }
  }

  /** Marking a type marks exactly what such a path leads to. */
  lemma PlainVisitsIff(types: seq<Type>, root: nat, follow: bool, a: nat)
    requires ValidBtf(types) && root < |types|
    ensures a in Ids(Visits(types, Node(root, Plain(follow)))) <==>
      a > 0 && exists path :: PlainPath(types, follow, path) && path[0] == root && path[|path| - 1] == a
  {
    hide Kids;
    var n, mode := Node(root, Plain(follow)), Plain(follow);
    if a in Ids(Visits(types, n)) {
      var b :| b in Visits(types, n) && b.id == a;
      VisitsInTable(types, n, b);
      var nodes :| IsChain(KidsOf(types), nodes) && nodes[0] == n && nodes[|nodes| - 1] == b;
      var path := PlainIds(types, follow, nodes);
    }
    if a > 0 && exists path :: PlainPath(types, follow, path) && path[0] == root && path[|path| - 1] == a {
      var path :| PlainPath(types, follow, path) && path[0] == root && path[|path| - 1] == a;
      PlainNodes(types, follow, path);
      assert Node(a, mode) in Visits(types, n);
    }
  }

  lemma {:induction false} PlainIds(types: seq<Type>, follow: bool, nodes: seq<Node>) returns (path: seq<nat>)
    requires IsChain(KidsOf(types), nodes) && nodes[0].mode == Plain(follow)
    ensures PlainPath(types, follow, path) && path[0] == nodes[0].id && path[|path| - 1] == nodes[|nodes| - 1].id
    ensures nodes[|nodes| - 1].mode == Plain(follow)
  {
    var n := |nodes| - 1;
    if n == 0 {
      path := [nodes[0].id];
    } else {
      hide Kids;
      hide Refs;
      var before := PlainIds(types, follow, nodes[..n]);
      assert KidsOf(types)(nodes[n - 1], nodes[n]);
      PlainKids(types, follow, nodes[n - 1].id, nodes[n]);
      path := before + [nodes[n].id];
      PlainPathOn(types, follow, before, nodes[n].id);
      hide PlainPath;
    }
  }

  lemma PlainPathOn(types: seq<Type>, follow: bool, path: seq<nat>, k: nat)
    requires PlainPath(types, follow, path)
    requires var i := path[|path| - 1]; 0 < i < |types| && k in Refs(types[i])
    requires
      var t := types[path[|path| - 1]]; t.Mod? || t.Typedef? || t.Array? || t.FuncProto? || (t.Ptr? && follow)
    ensures PlainPath(types, follow, path + [k])
  {
    hide Refs;
  }

  lemma PlainNodes(types: seq<Type>, follow: bool, path: seq<nat>)
    requires ValidBtf(types) && PlainPath(types, follow, path) && path[|path| - 1] > 0 && path[0] < |types|
    ensures Node(path[|path| - 1], Plain(follow)) in Visits(types, Node(path[0], Plain(follow)))
  {
    hide Kids;
    hide Refs;
    var last := |path| - 1;
    var nodes := At(path, Plain(follow));
    forall i | 0 <= i < last
      ensures KidsOf(types)(nodes[i], nodes[i + 1])
    {
      PlainKids(types, follow, path[i], nodes[i + 1]);
    }
    assert IsChain(KidsOf(types), nodes);
    if last > 0 {
      assert KidsOf(types)(nodes[last - 1], nodes[last]);
      KidInTable(types, nodes[last - 1], nodes[last]);
    }
    IsNode(types, nodes[last]);
    assert Leads(KidsOf(types), nodes[0], nodes[last]);
  }

  /** On the way to position `i` the path went behind a pointer, and through no array or prototype since. */
  ghost predicate BehindPointer(types: seq<Type>, path: seq<nat>, i: int)
    requires i <= |path| && forall j :: 0 <= j < i ==> path[j] < |types|
  {
    exists j :: 0 <= j < i && types[path[j]].Ptr? && forall k :: j < k < i ==>
      !types[path[k]].Array? && !types[path[k]].FuncProto?
  }

  /** A path of references through everything but the members of composites behind pointers. */
  ghost predicate MatchPath(types: seq<Type>, path: seq<nat>) {
    && |path| > 0
    && (forall i :: 0 <= i < |path| - 1 ==> 0 < path[i] < |types| && path[i + 1] in Refs(types[path[i]]))
    && forall i :: 0 <= i < |path| - 1 ==>
         var t := types[path[i]];
         || t.Mod? || t.Typedef? || t.Fwd? || t.Ptr? || t.Array? || t.FuncProto?
         || (t.Composite? && !BehindPointer(types, path, i))
  }

  lemma MatchKids(types: seq<Type>, behind: bool, i: nat, k: Node)
    ensures k in Kids(types, Node(i, Match(behind))) <==>
      && 0 < i < |types| && k.id in Refs(types[i])
      && var t := types[i];
      && (t.Mod? || t.Typedef? || t.Fwd? || t.Ptr? || t.Array? || t.FuncProto? || (t.Composite? && !behind))
      && k.mode == Match(t.Ptr? || (behind && !t.Array? && !t.FuncProto?))
  {
    var n := Node(i, Match(behind));
    if 0 < i < |types| {
      KidsAreRefs(types, n);
      AtHolds(Refs(types[i]), ModeBeyond(types[i], n.mode), k);
    }
  }

  lemma BehindStep(types: seq<Type>, path: seq<nat>, i: nat)
    requires i < |path| && forall j :: 0 <= j <= i ==> path[j] < |types|
    ensures
      var t := types[path[i]];
      BehindPointer(types, path, i + 1) <==>
        t.Ptr? || (BehindPointer(types, path, i) && !t.Array? && !t.FuncProto?)
  {
    if types[path[i]].Ptr? {
      assert BehindPointer(types, path, i + 1);
    }
  }

  lemma BehindPrefix(types: seq<Type>, path: seq<nat>, more: seq<nat>, i: nat)
    requires i <= |path| <= |more| && path == more[..|path|] && forall j :: 0 <= j < i ==> path[j] < |types|
    ensures BehindPointer(types, path, i) <==> BehindPointer(types, more, i)
  {
    assert forall j :: 0 <= j < i ==> path[j] == more[j];
  }

  /** Matching a type visits exactly what such a path leads to: behind a pointer if the path ends behind one. */
  lemma MatchVisitsIff(types: seq<Type>, root: nat, a: nat, behind: bool)
    requires ValidBtf(types) && root < |types|
    ensures Node(a, Match(behind)) in Visits(types, Node(root, Match(false))) <==>
      a > 0 && exists path :: MatchPath(types, path) && path[0] == root && path[|path| - 1] == a
                              && (behind <==> BehindPointer(types, path, |path| - 1))
  {
    hide Kids;
    var n, b := Node(root, Match(false)), Node(a, Match(behind));
    if b in Visits(types, n) {
      VisitsInTable(types, n, b);
      var nodes :| IsChain(KidsOf(types), nodes) && nodes[0] == n && nodes[|nodes| - 1] == b;
      var path := MatchIds(types, nodes);
    }
    if a > 0 && exists path :: MatchPath(types, path) && path[0] == root && path[|path| - 1] == a
                               && (behind <==> BehindPointer(types, path, |path| - 1)) {
      var path :| MatchPath(types, path) && path[0] == root && path[|path| - 1] == a
                  && (behind <==> BehindPointer(types, path, |path| - 1));
      MatchNodes(types, path);
    }
  }

  lemma {:induction false} MatchIds(types: seq<Type>, nodes: seq<Node>) returns (path: seq<nat>)
    requires IsChain(KidsOf(types), nodes) && nodes[0].mode == Match(false)
    ensures MatchPath(types, path) && path[0] == nodes[0].id && path[|path| - 1] == nodes[|nodes| - 1].id
    ensures nodes[|nodes| - 1].mode == Match(BehindPointer(types, path, |path| - 1))
  {
    var n := |nodes| - 1;
    if n == 0 {
      path := [nodes[0].id];
    } else {
      hide Kids;
      hide Refs;
      var before := MatchIds(types, nodes[..n]);
      var last := |before| - 1;
      assert KidsOf(types)(nodes[n - 1], nodes[n]);
      MatchKids(types, BehindPointer(types, before, last), before[last], nodes[n]);
      path := before + [nodes[n].id];
      MatchPathOn(types, before, nodes[n].id);
      hide BehindPointer;
    }
  }

  lemma MatchPathOn(types: seq<Type>, path: seq<nat>, k: nat)
    requires MatchPath(types, path)
    requires var i := path[|path| - 1]; 0 < i < |types| && k in Refs(types[i])
    requires
      var t := types[path[|path| - 1]];
      || t.Mod? || t.Typedef? || t.Fwd? || t.Ptr? || t.Array? || t.FuncProto?
      || (t.Composite? && !BehindPointer(types, path, |path| - 1))
    ensures MatchPath(types, path + [k])
    ensures
      var t := types[path[|path| - 1]];
      BehindPointer(types, path + [k], |path|) <==>
        t.Ptr? || (BehindPointer(types, path, |path| - 1) && !t.Array? && !t.FuncProto?)
  {
    hide Refs;
    var more, last := path + [k], |path| - 1;
    forall i | 0 <= i <= last
      ensures BehindPointer(types, path, i) <==> BehindPointer(types, more, i)
    {
      BehindPrefix(types, path, more, i);
    }
    BehindStep(types, more, last);
    hide BehindPointer;
  }

  lemma MatchNodes(types: seq<Type>, path: seq<nat>)
    requires ValidBtf(types) && MatchPath(types, path) && path[|path| - 1] > 0 && path[0] < |types|
    ensures Node(path[|path| - 1], Match(BehindPointer(types, path, |path| - 1)))
      in Visits(types, Node(path[0], Match(false)))
  {
    hide Kids;
    hide Refs;
    var last := |path| - 1;
    var nodes := seq(|path|, i requires 0 <= i < |path| => Node(path[i], Match(BehindPointer(types, path, i))));
    forall i | 0 <= i < last
      ensures KidsOf(types)(nodes[i], nodes[i + 1])
    {
      MatchKids(types, BehindPointer(types, path, i), path[i], nodes[i + 1]);
      BehindStep(types, path, i);
    }
    assert IsChain(KidsOf(types), nodes);
    if last > 0 {
      assert KidsOf(types)(nodes[last - 1], nodes[last]);
      KidInTable(types, nodes[last - 1], nodes[last]);
    }
    IsNode(types, nodes[last]);
    assert Leads(KidsOf(types), nodes[0], nodes[last]);
  }

  // ---------- the kinds that are refused ----------

  /** No type tag, no function, variable, section or declaration tag, and, unless types are matched, no forward
      declaration. */
  ghost predicate Markable(src: seq<Type>, ids: set<nat>, matching: bool) {
    forall i :: i in ids ==>
      i < |src| && !src[i].Other? && !(src[i].Mod? && src[i].mod == TypeTag) && (src[i].Fwd? ==> matching)
  }

  lemma MarkableIff(src: seq<Type>, n: Node)
    ensures AllSupported(src, Visits(src, n)) <==> Markable(src, Ids(Visits(src, n)), n.mode.Match?)
  {
    hide Kids;
    var vs := Visits(src, n);
    forall a | a in vs
      ensures 0 < a.id < |src| && a.mode.Match? == n.mode.Match?
    {
      VisitsInTable(src, n, a);
      var nodes :| IsChain(KidsOf(src), nodes) && nodes[0] == n && nodes[|nodes| - 1] == a;
      ModeStays(src, nodes);
    }
    hide Visits;
    if Markable(src, Ids(vs), n.mode.Match?) {
      forall a | a in vs
        ensures Supported(src, a)
      {
        assert a.id in Ids(vs);
      }
    }
  }

  lemma {:induction false} ModeStays(src: seq<Type>, nodes: seq<Node>)
    requires IsChain(KidsOf(src), nodes)
    ensures nodes[|nodes| - 1].mode.Match? == nodes[0].mode.Match?
  {
    var n := |nodes| - 1;
    if n > 0 {
      ModeStays(src, nodes[..n]);
      assert KidsOf(src)(nodes[n - 1], nodes[n]);
      KidKeepsMode(src, nodes[n - 1], nodes[n]);
    }
  }

  lemma KidKeepsMode(src: seq<Type>, n: Node, k: Node)
    requires k in Kids(src, n)
    ensures k.mode.Match? == n.mode.Match?
  {
    match n.mode
    case Plain(follow) => PlainKids(src, follow, n.id, k);
    case Match(behind) => MatchKids(src, behind, n.id, k);
  }

  /** Every step of the access selects from a composite or an array. */
  ghost predicate Selects(src: seq<Type>, id: nat, idxs: seq<int>)
    requires ValidBtf(src) && id < |src| && InBounds(src, id, idxs)
    decreases |idxs|
  {
    idxs == [] ||
    var t := src[Skip(src, id)];
    (t.Composite? || t.Array?) && Selects(src, First(src, id, idxs).value, idxs[1..])
  }

  /** The types of the members that the access selects. */
  ghost function Selected(src: seq<Type>, id: nat, idxs: seq<int>): (r: set<nat>)
    requires ValidBtf(src) && id < |src| && InBounds(src, id, idxs)
    ensures forall i :: i in r ==> i < |src|
    decreases |idxs|
  {
    if idxs == [] || First(src, id, idxs).None? then {} else
    var part := First(src, id, idxs).value;
    (if src[Skip(src, id)].Composite? then {part} else {}) + Selected(src, part, idxs[1..])
  }

  lemma {:induction false} TraceableMeans(src: seq<Type>, id: nat, idxs: seq<int>)
    requires ValidBtf(src) && id < |src| && InBounds(src, id, idxs)
    ensures Traceable(src, id, idxs) <==>
      && Selects(src, id, idxs)
      && forall p :: p in Selected(src, id, idxs) ==> Markable(src, Ids(Visits(src, Node(p, Plain(false)))), false)
    decreases |idxs|
  {
    hide Visits;
    hide ValidBtf;
    hide Skip;
    hide Markable;
    if idxs != [] && First(src, id, idxs).Some? {
      var part := First(src, id, idxs).value;
      TraceableMeans(src, part, idxs[1..]);
      MarkableIff(src, Node(part, Plain(false)));
    }
  }

  /** Exactly which relocations can be recorded. */
  lemma RecordableIff(src: seq<Type>, r: Relo)
    requires ValidBtf(src) && Resolved(src, r)
    ensures r.Field? ==> (Recordable(src, r) <==>
      && Markable(src, Ids(Visits(src, Node(r.root, Plain(false)))), false)
      && Selects(src, r.root, Selectors(r.raw))
      && (forall p :: p in Selected(src, r.root, Selectors(r.raw)) ==>
            Markable(src, Ids(Visits(src, Node(p, Plain(false)))), false)))
    ensures r.TypeBased? ==>
      (Recordable(src, r) <==> Markable(src, Ids(Visits(src, Node(r.root, Plain(true)))), false))
    ensures r.TypeMatches? ==>
      (Recordable(src, r) <==> Markable(src, Ids(Visits(src, Node(r.root, Match(false)))), true))
    ensures r.EnumValue? ==>
      (Recordable(src, r) <==> Markable(src, Ids(Visits(src, Node(r.root, Plain(false)))), false))
    ensures r.LocalTypeId? ==> Recordable(src, r)
    ensures r.UnknownKind? ==> !Recordable(src, r)
  {
    hide Visits;
    hide ValidBtf;
    hide Markable;
    hide Traceable;
    hide Selects;
    match r
    case Field(root, raw) =>
      MarkableIff(src, Node(root, Plain(false)));
      TraceableMeans(src, root, Selectors(raw));
    case TypeBased(root) => MarkableIff(src, Node(root, Plain(true)));
    case TypeMatches(root) => MarkableIff(src, Node(root, Match(false)));
    case EnumValue(root) => MarkableIff(src, Node(root, Plain(false)));
    case _ =>
  }

  lemma CleanIsMarkable(src: seq<Type>, n: Node, matching: bool)
    requires forall i :: 0 < i < |src| ==> !src[i].Fwd? && !src[i].Other? && (src[i].Mod? ==> src[i].mod != TypeTag)
    ensures Markable(src, Ids(Visits(src, n)), matching)
  {
    forall a | a in Visits(src, n)
      ensures 0 < a.id < |src|
    {
      VisitsInTable(src, n, a);
    }
  }

  /** In a table without type tags, forward declarations, functions, variables, sections and declaration tags, every
      relocation of a known kind is recorded. */
  lemma CleanTableRecords(src: seq<Type>, r: Relo)
    requires ValidBtf(src) && Resolved(src, r) && !r.UnknownKind?
    requires forall i :: 0 < i < |src| ==> !src[i].Fwd? && !src[i].Other? && (src[i].Mod? ==> src[i].mod != TypeTag)
    requires r.Field? ==> Selects(src, r.root, Selectors(r.raw))
    ensures Recordable(src, r)
  {
    hide Visits;
    hide ValidBtf;
    hide Markable;
    hide Selects;
    RecordableIff(src, r);
    forall n: Node, matching: bool
      ensures Markable(src, Ids(Visits(src, n)), matching)
    {
      CleanIsMarkable(src, n, matching);
    }
  }

  /** An enumeration can be recorded. */
  lemma EnumIsRecorded(kind: LeafKind, name: string, size: nat, values: seq<(string, int)>)
    ensures
      var src := [Void, Leaf(kind, name, size, false, 0, values)];
      ValidBtf(src) && Recordable(src, EnumValue(1)) && Recordable(src, TypeBased(1)) && Recordable(src, TypeMatches(1))
  {
    var src := [Void, Leaf(kind, name, size, false, 0, values)];
    CleanTableRecords(src, EnumValue(1));
    CleanTableRecords(src, TypeBased(1));
    CleanTableRecords(src, TypeMatches(1));
  }

  // ---------- modifiers ----------

  /** A path through modifiers and typedefs to a type that is neither. */
  ghost predicate SkipPath(types: seq<Type>, path: seq<nat>) {
    && |path| > 0
    && (forall i :: 0 <= i < |path| ==> path[i] < |types|)
    && (forall i :: 0 <= i < |path| - 1 ==>
          (types[path[i]].Mod? || types[path[i]].Typedef?) && path[i + 1] == types[path[i]].ref)
    && var last := types[path[|path| - 1]]; !last.Mod? && !last.Typedef?
  }

  /** Skipping leads along such a path, when modifiers do not run in circles. */
  lemma {:induction false} SkipsModifiers(types: seq<Type>, id: nat) returns (path: seq<nat>)
    requires ValidBtf(types) && id < |types| && Ends(KidsOf(types), Node(id, Plain(false)))
    ensures SkipPath(types, path) && path[0] == id && path[|path| - 1] == Skip(types, id)
    decreases Visits(types, Node(id, Plain(false)))
  {
    if types[id].Mod? || types[id].Typedef? {
      SkipStep(types, id);
      var rest := SkipsModifiers(types, types[id].ref);
      path := [id] + rest;
    } else {
      path := [id];
    }
  }

  // ---------- sizes ----------

  /** Sizes, kind by kind; a size beyond 32 bits is an error. */
  lemma SizeIs(types: seq<Type>, ptrSize: nat, id: nat, depth: nat)
    requires id < |types| && depth > 0
    ensures
      var r := ResolveSize(types, ptrSize, id, 1, depth);
      match types[id]
      case Leaf(_, _, size, _, _, _) => r == if size <= U32_MAX then Some(size) else None
      case Composite(_, _, size, _, _) => r == if size <= U32_MAX then Some(size) else None
      case Ptr(_) => r == if ptrSize <= U32_MAX then Some(ptrSize) else None
      case Mod(_, _, ref) => r == ResolveSize(types, ptrSize, ref, 1, depth - 1)
      case Typedef(_, ref) => r == ResolveSize(types, ptrSize, ref, 1, depth - 1)
      case Array(e, _, n) => ArraySize(r, n, ResolveSize(types, ptrSize, e, 1, depth - 1))
      case _ => r == None
  {
    FitsIff(0, 1);
    if types[id].Array? {
      FitsIff(types[id].nelems, 1);
      Scales(types, ptrSize, types[id].elem, types[id].nelems, depth - 1);
    }
  }

  /** The size of an array is the number of its elements times the size of one, if that has 32 bits. */
  ghost predicate ArraySize(r: Option<nat>, n: nat, elem: Option<nat>) {
    && (n > U32_MAX ==> r == None)
    && (0 < n <= U32_MAX ==> (r.Some? ==> elem.Some? && r.value == n * elem.value <= U32_MAX))
    && (0 < n <= U32_MAX && elem.Some? && elem.value > 0 && n * elem.value <= U32_MAX ==> r.Some?)
    && (n == 0 && r.Some? ==> r.value == 0) && (n == 0 && elem.Some? ==> r.Some?)
  }

  lemma TotalIs(size: nat, k: nat)
    requires k > 0
    ensures Total(size, k) == if k * size <= U32_MAX then Some(k * size) else None
  {
    var q := U32_MAX / k;
    Euclid(U32_MAX, k);
    if size <= q {
      MulLe(size, q, k);
    } else {
      MulLe(q + 1, size, k);
      MulDist(q, 1, k);
    }
  }

  lemma FitsIff(n: nat, k: nat)
    requires k > 0
    ensures n > U32_MAX / k <==> k * n > U32_MAX
  {
    TotalIs(n, k);
  }

  /** Fewer elements fit where more do. */
  lemma {:induction false} Fewer(types: seq<Type>, ptrSize: nat, id: nat, a: nat, b: nat, depth: nat)
    requires 0 < b <= a && ResolveSize(types, ptrSize, id, a, depth).Some?
    ensures ResolveSize(types, ptrSize, id, b, depth).Some?
    decreases depth
  {
    match types[id]
    case Leaf(_, _, size, _, _, _) => FewerTotal(size, a, b);
    case Composite(_, _, size, _, _) => FewerTotal(size, a, b);
    case Ptr(_) => FewerTotal(ptrSize, a, b);
    case Mod(_, _, r) => Fewer(types, ptrSize, r, a, b, depth - 1);
    case Typedef(_, r) => Fewer(types, ptrSize, r, a, b, depth - 1);
    case Array(e, _, n) =>
      FewerTotal(n, a, b);
      FitsIff(n, a);
      FitsIff(n, b);
      MulLe(b, a, n);
      if n > 0 {
        MulAtLeast(b, n);
        Fewer(types, ptrSize, e, a * n, b * n, depth - 1);
      }
  }

  lemma FewerTotal(size: nat, a: nat, b: nat)
    requires 0 < b <= a && Total(size, a).Some?
    ensures Total(size, b).Some?
  {
    TotalIs(size, a);
    TotalIs(size, b);
    MulLe(b, a, size);
  }

  /** What `k` elements take, given what one takes. */
  ghost predicate Scaled(one: Option<nat>, k: nat, all: Option<nat>) {
    && (k > 0 && all.Some? ==> one.Some? && all.value == k * one.value <= U32_MAX)
    && (k > 0 && one.Some? && one.value > 0 && k * one.value <= U32_MAX ==> all.Some?)
    && (k == 0 && all.Some? ==> all.value == 0) && (k == 0 && one.Some? ==> all.Some?)
  }

  lemma TotalScales(size: nat, k: nat)
    ensures Scaled(Total(size, 1), k, Total(size, k))
  {
    TotalIs(size, 1);
    if k > 0 {
      TotalIs(size, k);
      MulAtLeast(k, size);
    }
  }

  /** Counting elements first is multiplying afterwards. */
  lemma {:induction false} Scales(types: seq<Type>, ptrSize: nat, id: nat, k: nat, depth: nat)
    ensures Scaled(ResolveSize(types, ptrSize, id, 1, depth), k, ResolveSize(types, ptrSize, id, k, depth))
    decreases depth
  {
    if depth > 0 && id < |types| {
      match types[id]
      case Leaf(_, _, size, _, _, _) => TotalScales(size, k);
      case Composite(_, _, size, _, _) => TotalScales(size, k);
      case Ptr(_) => TotalScales(ptrSize, k);
      case Mod(_, _, r) => Scales(types, ptrSize, r, k, depth - 1);
      case Typedef(_, r) => Scales(types, ptrSize, r, k, depth - 1);
      case Array(e, _, n) =>
        Scales(types, ptrSize, e, n, depth - 1);
        Scales(types, ptrSize, e, k * n, depth - 1);
        ArrayScales(types, ptrSize, id, k, depth);
      case _ =>
    }
  }

  lemma ArrayScales(types: seq<Type>, ptrSize: nat, id: nat, k: nat, depth: nat)
    requires depth > 0 && id < |types| && types[id].Array?
    requires
      var e, n := types[id].elem, types[id].nelems;
      var one := ResolveSize(types, ptrSize, e, 1, depth - 1);
      && Scaled(one, n, ResolveSize(types, ptrSize, e, n, depth - 1))
      && Scaled(one, k * n, ResolveSize(types, ptrSize, e, k * n, depth - 1))
    ensures Scaled(ResolveSize(types, ptrSize, id, 1, depth), k, ResolveSize(types, ptrSize, id, k, depth))
  {
    var e, n := types[id].elem, types[id].nelems;
    var v := ResolveSize(types, ptrSize, e, 1, depth - 1);
    var some, all := ResolveSize(types, ptrSize, e, n, depth - 1), ResolveSize(types, ptrSize, e, k * n, depth - 1);
    FitsIff(n, 1);
    if k > 0 {
      FitsIff(n, k);
      MulAtLeast(k, n);
      if n > 0 && all.Some? {
        Fewer(types, ptrSize, e, k * n, n, depth - 1);
        MulAssoc(k, n, v.value);
      }
      if some.Some? && some.value > 0 && n > 0 {
        MulAssoc(k, n, v.value);
        MulAtLeast(v.value, k * n);
      }
    }
    hide ResolveSize;
  }

  // ---------- renumbering ----------

  /** A type without its references. */
  function Erased(t: Type): Type {
    match t
    case Ptr(_) => Ptr(0)
    case Mod(k, name, _) => Mod(k, name, 0)
    case Typedef(name, _) => Typedef(name, 0)
    case Fwd(u, name, _) => Fwd(u, name, 0)
    case Array(_, _, n) => Array(0, 0, n)
    case Composite(u, name, size, kflag, ms) =>
      Composite(u, name, size, kflag, seq(|ms|, i requires 0 <= i < |ms| => ms[i].(typ := 0)))
    case FuncProto(_, ps) => FuncProto(0, seq(|ps|, i requires 0 <= i < |ps| => ps[i].(typ := 0)))
    case Other(name, rs) => Other(name, seq(|rs|, _ => 0))
    case _ => t
  }

  /** The second pass changes the references of a type, one by one, and nothing else. */
  lemma OnlyReferencesChange(t: Type, ids: seq<nat>)
    requires RefsBelow(t, |ids|)
    ensures Erased(Remap(t, ids)) == Erased(t) && Refs(Remap(t, ids)) == RemapIds(Refs(t), ids)
  {
    RemapIsRefwise(t, ids);
    hide Refs;
    match t
    case Composite(_, _, _, _, ms) => assert Erased(Remap(t, ids)).members == Erased(t).members;
    case FuncProto(_, ps) => assert Erased(Remap(t, ids)).params == Erased(t).params;
    case Other(_, rs) => assert Erased(Remap(t, ids)).refs == Erased(t).refs;
    case _ =>
  }

  // ---------- offsets ----------

  /** A raw offset is a bit offset, or with the flag a bit offset of 24 bits below a bit size. */
  lemma RawOffset(t: Type, i: nat)
    requires t.Composite? && i < |t.members|
    ensures !t.kflag ==> BitOffset(t, i) == t.members[i].offset && BitSize(t, i) == 0
    ensures t.kflag ==> BitOffset(t, i) < 0x100_0000
    ensures t.kflag ==> t.members[i].offset == BitOffset(t, i) + 0x100_0000 * BitSize(t, i)
  {
  }

  /** The fields that are accepted: whole bytes, or 1 to 255 bits at an offset of 24 bits; in a union at offset 0. */
  lemma AcceptedIff(isUnion: bool, off: nat, size: nat)
    ensures AcceptsField(isUnion, off, size) <==>
      && ((size == 0 && off % 8 == 0) || (0 < size < 256 && off < 0x100_0000))
      && (isUnion ==> off == 0)
  {
  }

  /** A composite can be copied if and only if each marked member has a bit size or starts at a byte, and in a union
      at its start. */
  lemma CopyableIff(src: seq<Type>, id: nat, members: set<(nat, nat)>)
    requires ValidBtf(src) && id < |src| && src[id].Composite?
    ensures Copyable(src[id], id, members) <==>
      forall i :: 0 <= i < |src[id].members| && (id, i) in members ==>
        && (BitSize(src[id], i) > 0 || BitOffset(src[id], i) % 8 == 0)
        && (src[id].isUnion ==> BitOffset(src[id], i) == 0)
  {
    var t := src[id];
    forall i | 0 <= i < |t.members|
      ensures AcceptsField(t.isUnion, BitOffset(t, i), BitSize(t, i)) <==>
        (BitSize(t, i) > 0 || BitOffset(t, i) % 8 == 0) && (t.isUnion ==> BitOffset(t, i) == 0)
    {
      RawOffset(t, i);
      AcceptedIff(t.isUnion, BitOffset(t, i), BitSize(t, i));
    }
  }

  /** An added field reads back if and only if its offset has 24 bits or the composite has no bit field. */
  lemma AddedReadsBackIff(t: Type, name: string, typ: nat, off: nat, size: nat)
    requires t.Composite? && AcceptsField(t.isUnion, off, size)
    ensures
      var r := WithField(t, Member(name, typ, off + size * PACK), IsBitfield(off, size));
      (BitOffset(r, |t.members|) == off && BitSize(r, |t.members|) == size) <==> (r.kflag ==> off < 0x100_0000)
  {
    if off < 0x100_0000 {
      DivMod(off + size * PACK, PACK, size, off);
    }
  }

  /** The fields added before read as they did, if and only if the first bit field does not come after an offset
      of more than 24 bits. */
  lemma OthersReadAlikeIff(t: Type, m: Member, isBitfield: bool)
    requires t.Composite?
    ensures
      var r := WithField(t, m, isBitfield);
      (forall i :: 0 <= i < |t.members| ==> BitOffset(r, i) == BitOffset(t, i) && BitSize(r, i) == BitSize(t, i)) <==>
      (isBitfield && !t.kflag ==> forall i :: 0 <= i < |t.members| ==> t.members[i].offset < 0x100_0000)
  {
    var r := WithField(t, m, isBitfield);
    assert forall i :: 0 <= i < |t.members| ==> r.members[i] == t.members[i];
    if isBitfield && !t.kflag {
      forall i | 0 <= i < |t.members|
        ensures (BitOffset(r, i) == BitOffset(t, i) && BitSize(r, i) == BitSize(t, i)) <==> t.members[i].offset < 0x100_0000
      {
        Euclid(t.members[i].offset, PACK);
      }
    }
  }

  /** One step of an access: a member is at its bit offset, an element at its index times the size of an element. */
  lemma OneStep(types: seq<Type>, ptrSize: nat, id: nat, bits: Option<nat>, i: int)
    requires ValidBtf(types) && id < |types|
    ensures
      var t := types[Skip(types, id)];
      var r := Resolve(types, ptrSize, id, bits, [i]);
      && (t.Composite? && 0 <= i < |t.members| ==>
            r == Some(Reached(t.members[i].typ, BitOffset(t, i), Some(BitSize(t, i)))))
      && (t.Array? ==>
            && t.elem < |types|
            && var size := SizeOf(types, ptrSize, Skip(types, t.elem));
            r == if size.Some? then Some(Reached(t.elem, i * size.value * 8, None)) else None)
      && (!t.Array? && !(t.Composite? && 0 <= i < |t.members|) ==> r == None)
  {
    hide ValidBtf;
    hide Skip;
    hide ResolveSize;
    PartInTable(types, Skip(types, id), i);
    assert [i][1..] == [];
    if First(types, id, [i]).Some? {
      ResolveStep(types, ptrSize, id, bits, [i], First(types, id, [i]).value);
    }
  }

  /** Where `next` leads from what `x` reached. */
  function Onward(x: Option<Reached>, next: Option<Reached>): Option<Reached> {
    if x.None? || next.None? then None else Some(next.value.(off := x.value.off + next.value.off))
  }

  /** An access in two parts: the second goes on from where the first leads, and offsets add up. */
  lemma {:induction false} TwoParts(
      types: seq<Type>, ptrSize: nat, id: nat, bits: Option<nat>, a: seq<int>, b: seq<int>)
    requires ValidBtf(types) && id < |types|
    ensures
      var x := Resolve(types, ptrSize, id, bits, a);
      && (x.None? ==> Resolve(types, ptrSize, id, bits, a + b) == None)
      && (x.Some? ==>
            && x.value.typ < |types|
            && Resolve(types, ptrSize, id, bits, a + b) ==
               Onward(x, Resolve(types, ptrSize, x.value.typ, x.value.bits, b)))
    decreases |a|
  {
    hide ValidBtf;
    hide Skip;
    hide StepOffset;
    hide StepBits;
    if a == [] {
      assert a + b == b;
    } else {
      assert (a + b)[0] == a[0] && (a + b)[1..] == a[1..] + b;
      assert First(types, id, a + b) == First(types, id, a);
      if First(types, id, a).Some? {
        var part := First(types, id, a).value;
        TwoParts(types, ptrSize, part, StepBits(types, Skip(types, id), a[0]), a[1..], b);
        ResolveStep(types, ptrSize, id, bits, a, part);
        ResolveStep(types, ptrSize, id, bits, a + b, part);
      }
    }
  }

  /** The first accessor indexes the root like an array of it. */
  lemma FirstAccessor(types: seq<Type>, ptrSize: nat, root: nat, raw: seq<int>)
    requires ValidBtf(types) && root < |types| && raw != []
    ensures
      var size, r := SizeOf(types, ptrSize, Skip(types, root)), Resolve(types, ptrSize, root, None, raw[1..]);
      Follow(types, ptrSize, root, raw) ==
        if size.None? || r.None? then None else Some(r.value.(off := raw[0] * size.value * 8 + r.value.off))
  {
    hide ValidBtf;
    hide Skip;
    hide Resolve;
    hide ResolveSize;
  }
}

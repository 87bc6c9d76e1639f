/**
  The minimised table means the same: sizes, bit offsets and field accesses of
  everything recorded are those of the original table.
 */
module BtfTheorems {
  import opened Wrappers
  import opened Btf
  import opened BtfMark
  import opened BtfRecord
  import opened BtfClosure
  import opened BtfMinimise
  import opened Chains

  /** `out` was generated from closed marks of `src`. */
  ghost predicate Generated(src: seq<Type>, m: Marks, ids: seq<nat>, out: seq<Type>) {
    && ValidBtf(src) && Closed(src, m) && IsMinimised(src, m, ids, out)
    && (forall i :: i in m.types ==> Copyable(src[i], i, m.members))
  }

  /** Where a marked type went. */
  lemma ImageOf(src: seq<Type>, m: Marks, ids: seq<nat>, out: seq<Type>, i: nat)
    requires Generated(src, m, ids, out) && Has(m, i)
    ensures i < |src| == |ids| && ids[i] < |out| && (ids[i] == 0 <==> i == 0) && src[0] == out[0] == Void
    ensures RefsBelow(CopyOf(src[i], i, m.members), |ids|)
    ensures out[ids[i]] == Remap(CopyOf(src[i], i, m.members), ids)
  {
  }

  /** Different marked types go to different places. */
  lemma ImagesDiffer(src: seq<Type>, m: Marks, ids: seq<nat>, out: seq<Type>, i: nat, j: nat)
    requires Generated(src, m, ids, out) && Has(m, i) && Has(m, j) && ids[i] == ids[j]
    ensures i == j
  {
  }

  // ---------- composites keep the layout of their marked members ----------

  lemma RepackedSame(t: Type, i: nat)
    requires t.Composite? && i < |t.members|
    ensures Repacked(t, i) == t.members[i]
  {
  }

  /** The position of member `i` among the marked members. */
  function NewIndex(t: Type, id: nat, members: set<(nat, nat)>, i: nat): (r: nat)
    requires t.Composite? && i <= |t.members|
  {
    |Shrunk(t, id, members, i).members|
  }

  lemma {:induction false} ShrunkMember(t: Type, id: nat, members: set<(nat, nat)>, i: nat, n: nat)
    requires t.Composite? && i < n <= |t.members| && (id, i) in members
    ensures
      var r, j := Shrunk(t, id, members, n), NewIndex(t, id, members, i);
      j < |r.members| && r.members[j] == t.members[i]
    decreases n
  {
    RepackedSame(t, n - 1);
    if i < n - 1 {
      ShrunkMember(t, id, members, i, n - 1);
    }
  }

  /** The copy uses packed offsets only if the original does; if it does not, no kept member is a bit field. */
  lemma {:induction false} ShrunkFlag(t: Type, id: nat, members: set<(nat, nat)>, n: nat)
    requires t.Composite? && n <= |t.members| && Copyable(t, id, members)
    ensures Shrunk(t, id, members, n).kflag ==> t.kflag
    ensures !Shrunk(t, id, members, n).kflag ==>
      forall i :: 0 <= i < n && (id, i) in members ==> BitSize(t, i) == 0
  {
    if n > 0 {
      ShrunkFlag(t, id, members, n - 1);
    }
  }

  /** A kept member has the bit offset and the bit size it had. */
  lemma MemberLayoutKept(t: Type, id: nat, members: set<(nat, nat)>, i: nat)
    requires t.Composite? && i < |t.members| && (id, i) in members && Copyable(t, id, members)
    ensures
      var r, j := CopyOf(t, id, members), NewIndex(t, id, members, i);
      && r.Composite? && j < |r.members| && r.members[j].name == t.members[i].name && r.members[j].typ == t.members[i].typ
      && BitOffset(r, j) == BitOffset(t, i) && BitSize(r, j) == BitSize(t, i)
  {
    ShrunkMember(t, id, members, i, |t.members|);
    ShrunkFlag(t, id, members, |t.members|);
  }

  lemma {:induction false} ShrunkFrom(t: Type, id: nat, members: set<(nat, nat)>, n: nat, j: nat) returns (i: nat)
    requires t.Composite? && n <= |t.members| && j < |Shrunk(t, id, members, n).members|
    ensures i < n && (id, i) in members && Shrunk(t, id, members, n).members[j] == t.members[i]
  {
    RepackedSame(t, n - 1);
    if (id, n - 1) in members && j == |Shrunk(t, id, members, n - 1).members| {
      i := n - 1;
    } else {
      i := ShrunkFrom(t, id, members, n - 1, j);
    }
  }

  // ---------- the output is a table of types ----------

  /** Every reference of the output is the id of a type in the output. */
  lemma OutputIsValid(src: seq<Type>, m: Marks, ids: seq<nat>, out: seq<Type>)
    requires Generated(src, m, ids, out)
    ensures ValidBtf(out)
  {
    forall o, r | 0 <= o < |out| && r in Refs(out[o])
      ensures r < |out|
    {
      if o > 0 {
        var i := Origin(src, m, ids, out, o);
        RemappedRefs(CopyOf(src[i], i, m.members), ids, |out|);
      }
    }
    forall o, j | 0 <= o < |out| && out[o].Composite? && 0 <= j < |out[o].members|
      ensures out[o].members[j].offset <= U32_MAX
    {
      var i := Origin(src, m, ids, out, o);
      var from := ShrunkFrom(src[i], i, m.members, |src[i].members|, j);
    }
  }

  /** The original id of output type `o`. */
  ghost function Origin(src: seq<Type>, m: Marks, ids: seq<nat>, out: seq<Type>, o: nat): (i: nat)
    requires IsMinimised(src, m, ids, out) && 0 < o < |out|
    ensures i < |src| && ids[i] == o && i in m.types
  {
    assert Numbered(ids, |src|, o);
    var i :| 0 <= i < |src| && ids[i] == o;
    i
  }

  /** What a marked type refers to is marked. */
  lemma RefsMarked(src: seq<Type>, m: Marks, ids: seq<nat>, out: seq<Type>, i: nat)
    requires Generated(src, m, ids, out) && i in m.types
    ensures KeepsRefs(src, m, i)
  {
  }

  lemma RemappedRefs(t: Type, ids: seq<nat>, bound: nat)
    requires RefsBelow(t, |ids|) && forall i :: 0 <= i < |ids| ==> ids[i] < bound
    ensures |Refs(Remap(t, ids))| == |Refs(t)|
    ensures forall i :: 0 <= i < |Refs(t)| ==> Refs(Remap(t, ids))[i] == ids[Refs(t)[i]]
    ensures forall r :: r in Refs(Remap(t, ids)) ==> r < bound
  {
    RemapIsRefwise(t, ids);
  }

  lemma RemapIsRefwise(t: Type, ids: seq<nat>)
    requires RefsBelow(t, |ids|)
    ensures Refs(Remap(t, ids)) == RemapIds(Refs(t), ids)
  {
    match t
    case FuncProto(r, ps) => RemapIsRefwiseParams(r, ps, ids);
    case Composite(u, name, size, kflag, ms) => RemapIsRefwiseMembers(t, ids);
    case _ =>
  }

  lemma RemapIsRefwiseParams(r: nat, ps: seq<Param>, ids: seq<nat>)
    requires RefsBelow(FuncProto(r, ps), |ids|)
    ensures Refs(Remap(FuncProto(r, ps), ids)) == RemapIds(Refs(FuncProto(r, ps)), ids)
  {
    var t := FuncProto(r, ps);
    assert ParamTypes(RemapParams(ps, ids)) == RemapIds(Refs(t)[1..], ids) by {
      assert forall i :: 0 <= i < |ps| ==> Refs(t)[i + 1] == ps[i].typ;
    }
  }

  lemma RemapIsRefwiseMembers(t: Type, ids: seq<nat>)
    requires t.Composite? && RefsBelow(t, |ids|)
    ensures Refs(Remap(t, ids)) == RemapIds(Refs(t), ids)
  {
    assert forall i :: 0 <= i < |t.members| ==> Refs(t)[i] == t.members[i].typ;
  }

  // ---------- visits of the output are images of visits of the original ----------

  /** A visit in this mode goes on to what the type refers to, and in which mode. */
  predicate GoesOn(t: Type, mode: Mode) {
    match t
    case Ptr(_) => mode.Match? || mode.follow
    case Fwd(_, _, _) => mode.Match?
    case Composite(_, _, _, _, _) => mode == Match(false)
    case Mod(_, _, _) | Typedef(_, _) | Array(_, _, _) | FuncProto(_, _) => true
    case _ => false
  }

  function ModeBeyond(t: Type, mode: Mode): Mode {
    match t
    case Ptr(_) => if mode.Match? then Match(true) else mode
    case Array(_, _, _) | FuncProto(_, _) => Inner(mode)
    case _ => mode
  }

  lemma KidsAreRefs(types: seq<Type>, n: Node)
    requires 0 < n.id < |types|
    ensures Kids(types, n) ==
      if GoesOn(types[n.id], n.mode) then At(Refs(types[n.id]), ModeBeyond(types[n.id], n.mode)) else []
  {
  }

  lemma CopyGoesOn(t: Type, id: nat, members: set<(nat, nat)>, ids: seq<nat>, mode: Mode)
    requires RefsBelow(CopyOf(t, id, members), |ids|)
    ensures GoesOn(Remap(CopyOf(t, id, members), ids), mode) == GoesOn(t, mode)
    ensures ModeBeyond(Remap(CopyOf(t, id, members), ids), mode) == ModeBeyond(t, mode)
  {
  }

  /** Reference `j` of the copy of a type is a reference of the type. */
  lemma CopyRef(t: Type, id: nat, members: set<(nat, nat)>, j: nat) returns (at: nat)
    requires j < |Refs(CopyOf(t, id, members))|
    ensures at < |Refs(t)| && Refs(t)[at] == Refs(CopyOf(t, id, members))[j]
  {
    at := j;
    if t.Composite? {
      at := ShrunkFrom(t, id, members, |t.members|, j);
    }
  }

  /** What visiting an output type leads to, the original type leads to. */
  lemma KidOrigin(src: seq<Type>, m: Marks, ids: seq<nat>, out: seq<Type>, n: Node, j: nat)
    returns (k: Node)
    requires Generated(src, m, ids, out) && 0 < n.id < |out| && j < |Kids(out, n)|
    ensures k in Kids(src, Node(Origin(src, m, ids, out, n.id), n.mode))
    ensures k.id < |src| && Kids(out, n)[j] == Node(ids[k.id], k.mode)
  {
    var i := Origin(src, m, ids, out, n.id);
    ImageOf(src, m, ids, out, i);
    hide Generated;
    hide Kids;
    hide Remap;
    hide Refs;
    var a, c := Node(i, n.mode), CopyOf(src[i], i, m.members);
    KidsAreRefs(out, n);
    KidsAreRefs(src, a);
    CopyGoesOn(src[i], i, m.members, ids, n.mode);
    RemappedRefs(c, ids, |out|);
    var at := CopyRef(src[i], i, m.members, j);
    k := Kids(src, a)[at];
    assert Refs(c)[j] in Refs(c);
  }

  /** A chain of visits in the output is the image of one in the original. */
  lemma {:induction false} ChainOrigin(
      src: seq<Type>, m: Marks, ids: seq<nat>, out: seq<Type>, i: nat, path: seq<Node>) returns (from: seq<Node>)
    requires Generated(src, m, ids, out) && ValidBtf(out) && Has(m, i) && i < |ids|
    requires IsChain(KidsOf(out), path) && path[0].id == ids[i]
    ensures |from| == |path| && IsChain(KidsOf(src), from) && from[0] == Node(i, path[0].mode)
    ensures forall t :: 0 <= t < |path| ==> from[t].id < |ids| && path[t] == Node(ids[from[t].id], from[t].mode)
    decreases |path|
  {
    hide Generated;
    hide ValidBtf;
    hide Kids;
    ImageOf(src, m, ids, out, i);
    from := [Node(i, path[0].mode)];
    if |path| > 1 {
      assert KidsOf(out)(path[0], path[1]);
      var k := KidOriginOf(src, m, ids, out, i, path[0], path[1]);
      if path[1].id == 0 {
        VoidIsLast(out, path);
        from := from + [k];
      } else {
        var rest := ChainOrigin(src, m, ids, out, k.id, path[1..]);
        from := from + rest;
      }
    }
  }

  /** Void has no references, so a chain stops there. */
  lemma VoidIsLast(types: seq<Type>, path: seq<Node>)
    requires IsChain(KidsOf(types), path)
    ensures forall i :: 0 <= i < |path| - 1 ==> path[i].id != 0
  {
    forall i | 0 <= i < |path| - 1
      ensures path[i].id != 0
    {
      assert KidsOf(types)(path[i], path[i + 1]);
    }
  }

  lemma KidOriginOf(src: seq<Type>, m: Marks, ids: seq<nat>, out: seq<Type>, i: nat, n: Node, k': Node) returns (k: Node)
    requires Generated(src, m, ids, out) && ValidBtf(out) && Has(m, i) && i < |ids| && n.id == ids[i] && k' in Kids(out, n)
    ensures k in Kids(src, Node(i, n.mode)) && k.id < |ids| && k' == Node(ids[k.id], k.mode)
    ensures k'.id != 0 ==> Has(m, k.id)
  {
    KidInTable(out, n, k');
    var j :| 0 <= j < |Kids(out, n)| && Kids(out, n)[j] == k';
    k := KidOrigin(src, m, ids, out, n, j);
    ImagesDiffer(src, m, ids, out, i, Origin(src, m, ids, out, n.id));
  }

  /** A reference of a marked type that does not go behind pointers, in the output. */
  lemma KidImage(src: seq<Type>, m: Marks, ids: seq<nat>, out: seq<Type>, a: Node, k: Node)
    requires Generated(src, m, ids, out) && ValidBtf(out)
    requires a.mode == Plain(false) && Has(m, a.id) && k in Kids(src, a)
    ensures a.id < |ids| && k.id < |ids| && Has(m, k.id) && k.mode == Plain(false)
    ensures Node(ids[k.id], k.mode) in Kids(out, Node(ids[a.id], a.mode))
  {
    KidInTable(src, a, k);
    KidStaysMarked(src, a, k, m);
    ImageOf(src, m, ids, out, a.id);
    hide Generated;
    hide ValidBtf;
    var n, t := Node(ids[a.id], a.mode), src[a.id];
    KidsAreRefs(src, a);
    KidsAreRefs(out, n);
    CopyGoesOn(t, a.id, m.members, ids, a.mode);
    RemapIsRefwise(t, ids);
    hide Kids;
    hide Remap;
    hide Refs;
    var j :| 0 <= j < |Kids(src, a)| && Kids(src, a)[j] == k;
    assert Kids(out, n)[j] == Node(ids[k.id], k.mode);
  }

  ghost function ImagePath(ids: seq<nat>, path: seq<Node>): seq<Node>
    requires forall t :: 0 <= t < |path| ==> path[t].id < |ids|
  {
    seq(|path|, t requires 0 <= t < |path| => Node(ids[path[t].id], path[t].mode))
  }

  lemma ChainImage(src: seq<Type>, m: Marks, ids: seq<nat>, out: seq<Type>, path: seq<Node>)
    requires Generated(src, m, ids, out) && ValidBtf(out)
    requires IsChain(KidsOf(src), path) && path[0].mode == Plain(false) && Has(m, path[0].id)
    ensures forall t :: 0 <= t < |path| ==> path[t].id < |ids| && path[t].mode == Plain(false) && Has(m, path[t].id)
    ensures IsChain(KidsOf(out), ImagePath(ids, path))
  {
    forall t | 0 <= t < |path|
      ensures path[t].id < |ids| && path[t].mode == Plain(false) && Has(m, path[t].id)
    {
      ChainStaysMarked(src, path[..t + 1], m);
      ImageOf(src, m, ids, out, path[t].id);
    }
    hide Generated;
    hide ValidBtf;
    hide Kids;
    var image := ImagePath(ids, path);
    forall t | 0 <= t < |path| - 1
      ensures KidsOf(out)(image[t], image[t + 1])
    {
      assert KidsOf(src)(path[t], path[t + 1]);
      KidImage(src, m, ids, out, path[t], path[t + 1]);
    }
  }

  /** Where the visits of the original end, those of the output do. */
  lemma OutputEnds(src: seq<Type>, m: Marks, ids: seq<nat>, out: seq<Type>, i: nat, mode: Mode)
    requires Generated(src, m, ids, out) && Has(m, i) && i < |ids| && Ends(KidsOf(src), Node(i, mode))
    ensures Ends(KidsOf(out), Node(ids[i], mode))
  {
    OutputIsValid(src, m, ids, out);
    hide Generated;
    hide Kids;
    forall path: seq<Node> | IsChain(KidsOf(out), path) && path[0] == Node(ids[i], mode)
      ensures !Repeating(path)
    {
      var from := ChainOrigin(src, m, ids, out, i, path);
      forall s, t | 0 <= s < t < |path|
        ensures path[s] != path[t]
      {
        assert from[s] != from[t];
        OriginsDiffer(src, m, ids, out, path, from, s, t);
      }
    }
  }

  lemma OriginsDiffer(
      src: seq<Type>, m: Marks, ids: seq<nat>, out: seq<Type>, path: seq<Node>, from: seq<Node>, s: nat, t: nat)
    requires Generated(src, m, ids, out) && s < t < |path| == |from| && from[s] != from[t]
    requires IsChain(KidsOf(out), path)
    requires forall t :: 0 <= t < |path| ==> from[t].id < |ids| && path[t] == Node(ids[from[t].id], from[t].mode)
    ensures path[s] != path[t]
  {
    assert KidsOf(out)(path[s], path[s + 1]);
    assert path[s].id != 0;
  }

  /** Without going behind pointers the visits of a marked type end in the output if and only if they do in the original. */
  lemma EndsAlike(src: seq<Type>, m: Marks, ids: seq<nat>, out: seq<Type>, i: nat)
    requires Generated(src, m, ids, out) && Has(m, i) && i < |ids|
    ensures Ends(KidsOf(out), Node(ids[i], Plain(false))) <==> Ends(KidsOf(src), Node(i, Plain(false)))
  {
    OutputIsValid(src, m, ids, out);
    if Ends(KidsOf(src), Node(i, Plain(false))) {
      OutputEnds(src, m, ids, out, i, Plain(false));
    }
    hide Generated;
    hide Kids;
    if Ends(KidsOf(out), Node(ids[i], Plain(false))) {
      forall path: seq<Node> | IsChain(KidsOf(src), path) && path[0] == Node(i, Plain(false))
        ensures !Repeating(path)
      {
        ChainImage(src, m, ids, out, path);
        var image := ImagePath(ids, path);
        assert image[0] == Node(ids[i], Plain(false));
        assert forall t :: 0 <= t < |path| ==> image[t] == Node(ids[path[t].id], path[t].mode);
      }
    }
  }

  // ---------- sizes ----------

  /** A recorded type has the size it had. */
  lemma {:induction false} SizeKept(
      src: seq<Type>, m: Marks, ids: seq<nat>, out: seq<Type>,
      ptrSize: nat, i: nat, nelems: nat, depth: nat)
    requires Generated(src, m, ids, out) && Has(m, i)
    ensures ResolveSize(out, ptrSize, ids[i], nelems, depth) == ResolveSize(src, ptrSize, i, nelems, depth)
    decreases depth
  {
    hide Generated;
    ImageOf(src, m, ids, out, i);
    if depth > 0 && i > 0 {
      RefsMarked(src, m, ids, out, i);
      match src[i]
      case Mod(_, _, r) => SizeKept(src, m, ids, out, ptrSize, r, nelems, depth - 1);
      case Typedef(_, r) => SizeKept(src, m, ids, out, ptrSize, r, nelems, depth - 1);
      case Array(e, _, n) =>
        if nelems == 0 || n <= U32_MAX / nelems {
          SizeKept(src, m, ids, out, ptrSize, e, nelems * n, depth - 1);
        }
      case _ =>
    }
  }

  // ---------- accesses ----------

  /** Where an access leads: a type, its bit offset, and the bit-field size of the member selected last;
      no member when the last accessor is an index. */
  datatype Reached = Reached(typ: nat, off: int, bits: Option<nat>)

  /** The bit offset of member `idx` of a composite, or of element `idx` of an array of `elem`. */
  function StepOffset(types: seq<Type>, ptrSize: nat, s: nat, idx: int, elem: nat): Option<int>
    requires s < |types| && Part(types, s, idx).Some?
  {
    if types[s].Composite? then Some(BitOffset(types[s], idx))
    else match SizeOf(types, ptrSize, elem)
      case None => None
      case Some(size) => Some(idx * size * 8)
  }

  function StepBits(types: seq<Type>, s: nat, idx: int): Option<nat>
    requires s < |types| && Part(types, s, idx).Some?
  {
    if types[s].Composite? then Some(BitSize(types[s], idx)) else None
  }

  /** Following the accessors `idxs` from type `id`, reached through a member of `bits` bits. */
  ghost function Resolve(types: seq<Type>, ptrSize: nat, id: nat, bits: Option<nat>, idxs: seq<int>): Option<Reached>
    requires ValidBtf(types) && id < |types|
    decreases |idxs|
  {
    if idxs == [] then Some(Reached(id, 0, bits)) else
    var s := Skip(types, id);
    match First(types, id, idxs)
    case None => None
    case Some(part) =>
      Further(StepOffset(types, ptrSize, s, idxs[0], Skip(types, part)),
              Resolve(types, ptrSize, part, StepBits(types, s, idxs[0]), idxs[1..]))
  }

  /** An access that goes on after a step. */
  function Further(step: Option<int>, rest: Option<Reached>): Option<Reached> {
    if step.None? || rest.None? then None else Some(rest.value.(off := step.value + rest.value.off))
  }

  /** The access in terms of the output: member indices shift, array indices stay. */
  ghost function Image(types: seq<Type>, m: Marks, id: nat, idxs: seq<int>): (r: seq<int>)
    requires ValidBtf(types) && id < |types|
    ensures |r| <= |idxs|
    decreases |idxs|
  {
    if idxs == [] then [] else
    var s := Skip(types, id);
    match First(types, id, idxs)
    case None => []
    case Some(part) =>
      var first := if types[s].Composite? then NewIndex(types[s], s, m.members, idxs[0]) else idxs[0];
      [first] + Image(types, m, part, idxs[1..])
  }

  lemma {:induction false} SkipImage(src: seq<Type>, m: Marks, ids: seq<nat>, out: seq<Type>, i: nat)
    requires Generated(src, m, ids, out) && ValidBtf(src) && ValidBtf(out) && Has(m, i) && i < |src|
    ensures |ids| == |src| && ids[i] < |out| && Has(m, Skip(src, i))
    ensures Skip(out, ids[i]) == ids[Skip(src, i)]
    decreases Visits(src, Node(i, Plain(false)))
  {
    ImageOf(src, m, ids, out, i);
    EndsAlike(src, m, ids, out, i);
    if i > 0 && IsModOrTypedef(src[i]) && Ends(KidsOf(src), Node(i, Plain(false))) {
      RefsMarked(src, m, ids, out, i);
      SkipStep(src, i);
      SkipImage(src, m, ids, out, src[i].ref);
    }
  }

  /** The part of a recorded composite or array, in the output. */
  lemma PartImage(src: seq<Type>, m: Marks, ids: seq<nat>, out: seq<Type>, s: nat, idx: int)
    requires Generated(src, m, ids, out) && Has(m, s) && s < |src| && Part(src, s, idx).Some?
    requires src[s].Composite? ==> (s, idx) in m.members
    ensures
      var j := if src[s].Composite? then NewIndex(src[s], s, m.members, idx) else idx;
      && Has(m, Part(src, s, idx).value) && Part(src, s, idx).value < |ids| == |src| && ids[s] < |out|
      && Part(out, ids[s], j) == Some(ids[Part(src, s, idx).value])
      && (src[s].Composite? <==> out[ids[s]].Composite?)
      && (src[s].Composite? ==> BitOffset(out[ids[s]], j) == BitOffset(src[s], idx))
      && StepBits(out, ids[s], j) == StepBits(src, s, idx)
  {
    ImageOf(src, m, ids, out, s);
    assert s != 0;
    if src[s].Composite? {
      assert KeepsMember(src, m, (s, idx));
      MemberLayoutKept(src[s], s, m.members, idx);
    } else {
      RefsMarked(src, m, ids, out, s);
    }
  }

  lemma StepKept(src: seq<Type>, m: Marks, ids: seq<nat>, out: seq<Type>, ptrSize: nat, s: nat, idx: int, elem: nat)
    requires Generated(src, m, ids, out) && Has(m, s) && s < |src| && Part(src, s, idx).Some? && Has(m, elem)
    requires src[s].Composite? ==> (s, idx) in m.members
    ensures
      var j := if src[s].Composite? then NewIndex(src[s], s, m.members, idx) else idx;
      && ids[s] < |out| && elem < |src| && Part(out, ids[s], j).Some?
      && StepOffset(out, ptrSize, ids[s], j, ids[elem]) == StepOffset(src, ptrSize, s, idx, elem)
  {
    PartImage(src, m, ids, out, s, idx);
    ImageOf(src, m, ids, out, elem);
    SizeKept(src, m, ids, out, ptrSize, elem, 1, MAX_RESOLVE_DEPTH);
  }

  /** The second access leads to the image of where the first one leads, at the same bit offset. */
  ghost predicate SameAccess(m: Marks, ids: seq<nat>, was: Option<Reached>, now: Option<Reached>) {
    match was
    case None => now == None
    case Some(x) => Has(m, x.typ) && x.typ < |ids| && now == Some(x.(typ := ids[x.typ]))
  }

  lemma ResolveStep(types: seq<Type>, ptrSize: nat, id: nat, bits: Option<nat>, idxs: seq<int>, part: nat)
    requires ValidBtf(types) && id < |types| && part < |types| && idxs != [] && First(types, id, idxs) == Some(part)
    ensures Resolve(types, ptrSize, id, bits, idxs) ==
      Further(StepOffset(types, ptrSize, Skip(types, id), idxs[0], Skip(types, part)),
              Resolve(types, ptrSize, part, StepBits(types, Skip(types, id), idxs[0]), idxs[1..]))
  {
  }

  lemma FurtherSame(m: Marks, ids: seq<nat>, step: Option<int>, was: Option<Reached>, now: Option<Reached>)
    requires SameAccess(m, ids, was, now)
    ensures SameAccess(m, ids, Further(step, was), Further(step, now))
  {
  }

  /** The first step of a kept access, in the output. */
  lemma FirstImage(src: seq<Type>, m: Marks, ids: seq<nat>, out: seq<Type>, ptrSize: nat, id: nat, idxs: seq<int>, part: nat)
    requires Generated(src, m, ids, out) && ValidBtf(src) && ValidBtf(out) && id < |src| && Kept(src, m, id, idxs)
    requires idxs != [] && First(src, id, idxs) == Some(part) && part < |src|
    ensures |ids| == |src| && ids[id] < |out| && ids[part] < |out| && Has(m, part)
    ensures
      var image := Image(src, m, id, idxs);
      && image != [] && image[1..] == Image(src, m, part, idxs[1..]) && First(out, ids[id], image) == Some(ids[part])
      && StepOffset(out, ptrSize, Skip(out, ids[id]), image[0], Skip(out, ids[part]))
         == StepOffset(src, ptrSize, Skip(src, id), idxs[0], Skip(src, part))
      && StepBits(out, Skip(out, ids[id]), image[0]) == StepBits(src, Skip(src, id), idxs[0])
  {
    hide Generated;
    hide ValidBtf;
    hide StepOffset;
    hide StepBits;
    var s := Skip(src, id);
    SkipImage(src, m, ids, out, id);
    PartImage(src, m, ids, out, s, idxs[0]);
    SkipImage(src, m, ids, out, part);
    StepKept(src, m, ids, out, ptrSize, s, idxs[0], Skip(src, part));
  }

  /** A kept access leads to the image of the same type, at the same bit offset, through a member of the same size. */
  lemma {:induction false} AccessPreserved(
      src: seq<Type>, m: Marks, ids: seq<nat>, out: seq<Type>, ptrSize: nat, id: nat, bits: Option<nat>, idxs: seq<int>)
    requires Generated(src, m, ids, out) && ValidBtf(src) && ValidBtf(out) && id < |src| && Kept(src, m, id, idxs)
    ensures |ids| == |src| && ids[id] < |out|
    ensures SameAccess(m, ids, Resolve(src, ptrSize, id, bits, idxs),
                       Resolve(out, ptrSize, ids[id], bits, Image(src, m, id, idxs)))
    decreases |idxs|
  {
    ImageOf(src, m, ids, out, id);
    if idxs != [] {
      var part := First(src, id, idxs).value;
      hide Generated;
      hide ValidBtf;
      hide StepOffset;
      hide StepBits;
      hide Image;
      hide Skip;
      FirstImage(src, m, ids, out, ptrSize, id, idxs, part);
      AccessPreserved(src, m, ids, out, ptrSize, part, StepBits(src, Skip(src, id), idxs[0]), idxs[1..]);
      var image := Image(src, m, id, idxs);
      ResolveStep(src, ptrSize, id, bits, idxs, part);
      ResolveStep(out, ptrSize, ids[id], bits, image, ids[part]);
      hide Resolve;
      FurtherSame(m, ids, StepOffset(src, ptrSize, Skip(src, id), idxs[0], Skip(src, part)),
                  Resolve(src, ptrSize, part, StepBits(src, Skip(src, id), idxs[0]), idxs[1..]),
                  Resolve(out, ptrSize, ids[part], StepBits(src, Skip(src, id), idxs[0]), image[1..]));
    }
  }
}

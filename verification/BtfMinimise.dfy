/**
  Generating the minimised table: marked types are copied in order, composites
  with their marked members only, and then every reference is renumbered.
 */
module BtfMinimise {
  import opened Wrappers
  import opened Btf
  import opened BtfRecord

  predicate IsBitfield(bitOffset: nat, bitSize: nat) { bitSize != 0 || bitOffset % 8 != 0 }

  /** The checks of btf__add_field. */
  predicate AcceptsField(isUnion: bool, bitOffset: nat, bitSize: nat) {
    && !(IsBitfield(bitOffset, bitSize) && (bitSize == 0 || bitSize > 255 || bitOffset > 0xff_ffff))
    && !(isUnion && bitOffset != 0)
  }

  /** The table under construction. */
  class Builder {
    var types: seq<Type>

    constructor ()
      ensures types == [Void]
    {
      types := [Void];
    }

    /** btf__add_struct and btf__add_union */
    method AddComposite(isUnion: bool, name: string, size: nat) returns (id: nat)
      modifies this
      ensures types == old(types) + [Composite(isUnion, name, size, false, [])] && id == old(|types|)
    {
      types := types + [Composite(isUnion, name, size, false, [])];
      return |types| - 1;
    }

    /** btf__add_field: append to the last type. */
    method AddField(name: string, typ: nat, bitOffset: nat, bitSize: nat) returns (ok: bool)
      requires |types| > 0
      modifies this
      ensures ok == (old(types[|types| - 1]).Composite? && AcceptsField(old(types[|types| - 1]).isUnion, bitOffset, bitSize))
      ensures !ok ==> types == old(types)
      ensures ok ==> types == old(types)[..|old(types)| - 1] + [WithField(
                old(types[|types| - 1]), Member(name, typ, bitOffset + bitSize * PACK), IsBitfield(bitOffset, bitSize))]
    {
      var last := types[|types| - 1];
      if !last.Composite? {
        return false;
      }
      var isBitfield := bitSize != 0 || bitOffset % 8 != 0;
      if isBitfield && (bitSize == 0 || bitSize > 255 || bitOffset > 0xff_ffff) {
        return false;
      }
      if last.isUnion && bitOffset != 0 {
        return false;
      }
      var m := Member(name, typ, bitOffset + bitSize * PACK);
      types := types[|types| - 1 := last.(kflag := isBitfield || last.kflag, members := last.members + [m])];
      return true;
    }

    /** btf__add_type: kind 0 has no size and is refused. */
    method AddType(t: Type) returns (r: Option<nat>)
      modifies this
      ensures t.Void? ==> r == None && types == old(types)
      ensures !t.Void? ==> r == Some(old(|types|)) && types == old(types) + [t]
    {
      if t.Void? {
        return None;
      }
      types := types + [t];
      return Some(|types| - 1);
    }
  }

  function WithField(t: Type, m: Member, isBitfield: bool): Type
    requires t.Composite?
  {
    t.(kflag := isBitfield || t.kflag, members := t.members + [m])
  }

  /** Member `i` of `t` as it is handed to btf__add_field. */
  function Repacked(t: Type, i: nat): Member
    requires t.Composite? && i < |t.members|
  {
    Member(t.members[i].name, t.members[i].typ, BitOffset(t, i) + BitSize(t, i) * PACK)
  }

  /** Composite `t` with only the marked ones of its first `n` members. */
  function Shrunk(t: Type, id: nat, members: set<(nat, nat)>, n: nat): (r: Type)
    requires t.Composite? && n <= |t.members|
    ensures r.Composite? && r.isUnion == t.isUnion && r.name == t.name && r.size == t.size
  {
    if n == 0 then Composite(t.isUnion, t.name, t.size, false, [])
    else
      var r := Shrunk(t, id, members, n - 1);
      if (id, n - 1) in members then
        WithField(r, Repacked(t, n - 1), IsBitfield(BitOffset(t, n - 1), BitSize(t, n - 1)))
      else r
  }

  /** What is copied for type `t` with id `id`, references not yet renumbered. */
  function CopyOf(t: Type, id: nat, members: set<(nat, nat)>): Type {
    if t.Composite? then Shrunk(t, id, members, |t.members|) else t
  }

  /** The types btfgen_get_btf can copy. */
  predicate Copyable(t: Type, id: nat, members: set<(nat, nat)>) {
    match t
    case Void => false
    case Composite(u, _, _, _, ms) =>
      forall i :: 0 <= i < |ms| && (id, i) in members ==> AcceptsField(u, BitOffset(t, i), BitSize(t, i))
    case _ => true
  }

  function RemapParams(ps: seq<Param>, ids: seq<nat>): (r: seq<Param>)
    requires forall i :: 0 <= i < |ps| ==> ps[i].typ < |ids|
    ensures |r| == |ps|
  {
    seq(|ps|, i requires 0 <= i < |ps| => Param(ps[i].name, ids[ps[i].typ]))
  }

  function RemapMembers(ms: seq<Member>, ids: seq<nat>): (r: seq<Member>)
    requires forall i :: 0 <= i < |ms| ==> ms[i].typ < |ids|
    ensures |r| == |ms|
  {
    seq(|ms|, i requires 0 <= i < |ms| => ms[i].(typ := ids[ms[i].typ]))
  }

  function RemapIds(rs: seq<nat>, ids: seq<nat>): (r: seq<nat>)
    requires forall i :: 0 <= i < |rs| ==> rs[i] < |ids|
    ensures |r| == |rs|
  {
    seq(|rs|, i requires 0 <= i < |rs| => ids[rs[i]])
  }

  predicate RefsBelow(t: Type, n: nat) { forall i :: 0 <= i < |Refs(t)| ==> Refs(t)[i] < n }

  /** btf_type_visit_type_ids with btfgen_remap_id */
  function Remap(t: Type, ids: seq<nat>): Type
    requires RefsBelow(t, |ids|)
  {
    match t
    case Void => t
    case Leaf(_, _, _, _, _, _) => t
    case Ptr(r) => assert Refs(t)[0] == r; Ptr(ids[r])
    case Mod(k, name, r) => assert Refs(t)[0] == r; Mod(k, name, ids[r])
    case Typedef(name, r) => assert Refs(t)[0] == r; Typedef(name, ids[r])
    case Fwd(u, name, r) => assert Refs(t)[0] == r; Fwd(u, name, ids[r])
    case Array(e, x, n) => assert Refs(t)[0] == e && Refs(t)[1] == x; Array(ids[e], ids[x], n)
    case Composite(u, name, size, kflag, ms) =>
      assert forall i :: 0 <= i < |ms| ==> Refs(t)[i] == ms[i].typ;
      Composite(u, name, size, kflag, RemapMembers(ms, ids))
    case FuncProto(r, ps) =>
      assert Refs(t)[0] == r && forall i :: 0 <= i < |ps| ==> Refs(t)[i + 1] == ps[i].typ;
      FuncProto(ids[r], RemapParams(ps, ids))
    case Other(name, rs) => Other(name, RemapIds(rs, ids))
  }

  /** `ids` numbers the marked types below `n` from 1 to `count`, in order, and is 0 elsewhere. */
  ghost predicate Numbers(ids: seq<nat>, marked: set<nat>, n: nat, count: nat) {
    && n <= |ids| && 0 !in marked
    && (forall i :: 0 <= i < |ids| ==> (ids[i] != 0 <==> i < n && i in marked))
    && (forall i :: 0 <= i < |ids| ==> ids[i] <= count)
    && (forall i, j :: 0 <= i < j < n && i in marked && j in marked ==> ids[i] < ids[j])
    && (forall o :: 1 <= o <= count ==> Numbered(ids, n, o))
  }

  ghost predicate Numbered(ids: seq<nat>, n: nat, o: int)
    requires n <= |ids|
  {
    exists i :: 0 <= i < n && ids[i] == o
  }

  /** The output holds, for every marked type, its shrunk copy with every reference renumbered. */
  ghost predicate IsMinimised(src: seq<Type>, m: Marks, ids: seq<nat>, out: seq<Type>) {
    && |ids| == |src| && |out| > 0 && out[0] == Void
    && Numbers(ids, m.types, |src|, |out| - 1)
    && (forall i :: 0 <= i < |src| && i in m.types ==>
          RefsBelow(CopyOf(src[i], i, m.members), |src|) &&
          out[ids[i]] == Remap(CopyOf(src[i], i, m.members), ids))
  }

  lemma {:induction false} ShrunkRefs(t: Type, id: nat, members: set<(nat, nat)>, n: nat, bound: nat)
    requires t.Composite? && n <= |t.members| && RefsBelow(t, bound)
    ensures forall i :: 0 <= i < |Shrunk(t, id, members, n).members| ==> Shrunk(t, id, members, n).members[i].typ < bound
  {
    if n > 0 {
      ShrunkRefs(t, id, members, n - 1, bound);
      assert Refs(t)[n - 1] == t.members[n - 1].typ;
    }
  }

  lemma CopyRefs(t: Type, id: nat, members: set<(nat, nat)>, bound: nat)
    requires RefsBelow(t, bound)
    ensures RefsBelow(CopyOf(t, id, members), bound)
  {
    if t.Composite? {
      ShrunkRefs(t, id, members, |t.members|, bound);
    }
  }

  /** The member loop of the first pass. */
  method CopyComposite(b: Builder, t: Type, id: nat, m: Marks) returns (r: Option<nat>)
    requires t.Composite? && |b.types| > 0
    modifies b
    ensures r.Some? == Copyable(t, id, m.members)
    ensures r.Some? ==> r.value == old(|b.types|) && b.types == old(b.types) + [CopyOf(t, id, m.members)]
  {
    var newId := b.AddComposite(t.isUnion, t.name, t.size);
    for i := 0 to |t.members|
      invariant b.types == old(b.types) + [Shrunk(t, id, m.members, i)]
      invariant forall j :: 0 <= j < i && (id, j) in m.members ==> AcceptsField(t.isUnion, BitOffset(t, j), BitSize(t, j))
    {
      if (id, i) in m.members {
        var mb := t.members[i];
        var ok := b.AddField(mb.name, mb.typ, BitOffset(t, i), BitSize(t, i));
        if !ok {
          return None;
        }
      }
    }
    return Some(newId);
  }

  method CopyType(b: Builder, t: Type, id: nat, m: Marks) returns (r: Option<nat>)
    requires |b.types| > 0
    modifies b
    ensures r.Some? == Copyable(t, id, m.members)
    ensures r.Some? ==> r.value == old(|b.types|) && b.types == old(b.types) + [CopyOf(t, id, m.members)]
  {
    if t.Composite? {
      r := CopyComposite(b, t, id, m);
    } else {
      r := b.AddType(t);
    }
  }

  /** The first pass of btfgen_get_btf. */
  method CopyMarked(src: seq<Type>, m: Marks) returns (r: Option<(seq<nat>, seq<Type>)>)
    requires |src| > 0 && forall i :: i in m.types ==> 0 < i < |src|
    ensures r.Some? == (forall i :: i in m.types ==> Copyable(src[i], i, m.members))
    ensures r.Some? ==>
      var (ids, copied) := r.value;
      && |ids| == |src| && |copied| > 0 && copied[0] == Void
      && Numbers(ids, m.types, |src|, |copied| - 1)
      && (forall i :: 0 <= i < |src| && i in m.types ==> copied[ids[i]] == CopyOf(src[i], i, m.members))
  {
    var b := new Builder();
    var ids := new nat[|src|](_ => 0);
    var i := 1;
    while i < |src|
      invariant 1 <= i <= |src|
      invariant Copied(src, m, ids[..], b.types, i)
      invariant forall j :: 0 <= j < i && j in m.types ==> Copyable(src[j], j, m.members)
    {
      ghost var was: seq<nat> := ids[..];
      ghost var before := b.types;
      if i in m.types {
        var newId := CopyType(b, src[i], i, m);
        if newId == None {
          return None;
        }
        ids[i] := newId.value;
        assert ids[..] == was[i := |before|];
      }
      CopiedStep(src, m, was, before, i);
      i := i + 1;
    }
    return Some((ids[..], b.types));
  }

  /** The marked types below `n` are numbered and copied. */
  ghost predicate Copied(src: seq<Type>, m: Marks, ids: seq<nat>, types: seq<Type>, n: nat) {
    && |ids| == |src| && |types| > 0 && types[0] == Void
    && Numbers(ids, m.types, n, |types| - 1)
    && forall j :: 0 <= j < n && j in m.types ==> types[ids[j]] == CopyOf(src[j], j, m.members)
  }

  lemma CopiedStep(src: seq<Type>, m: Marks, ids: seq<nat>, types: seq<Type>, n: nat)
    requires Copied(src, m, ids, types, n) && n < |src|
    ensures n in m.types ==> Copied(src, m, ids[n := |types|], types + [CopyOf(src[n], n, m.members)], n + 1)
    ensures n !in m.types ==> Copied(src, m, ids, types, n + 1)
  {
    if n in m.types {
      NumbersStep(ids, m.types, n, |types| - 1);
    } else {
      NumbersSkip(ids, m.types, n, |types| - 1);
    }
  }

  lemma NumbersSkip(ids: seq<nat>, marked: set<nat>, n: nat, count: nat)
    requires Numbers(ids, marked, n, count) && n < |ids| && n !in marked
    ensures Numbers(ids, marked, n + 1, count)
  {
    var next := n + 1;
    forall o | 1 <= o <= count
      ensures Numbered(ids, next, o)
    {
      assert Numbered(ids, n, o);
    }
  }

  lemma NumbersStep(ids: seq<nat>, marked: set<nat>, n: nat, count: nat)
    requires Numbers(ids, marked, n, count) && n < |ids| && n in marked
    ensures Numbers(ids[n := count + 1], marked, n + 1, count + 1)
  {
    var after, next := ids[n := count + 1], n + 1;
    forall o | 1 <= o <= count + 1
      ensures Numbered(after, next, o)
    {
      if o == count + 1 {
        assert after[n] == o;
      } else {
        assert Numbered(ids, n, o);
        var i :| 0 <= i < n && ids[i] == o;
        assert after[i] == o;
      }
    }
  }

  /** btfgen_get_btf: both passes.  It fails exactly when a marked type cannot be copied. */
  method GetBtf(src: seq<Type>, m: Marks) returns (r: Option<(seq<nat>, seq<Type>)>)
    requires ValidBtf(src) && forall i :: i in m.types ==> 0 < i < |src|
    ensures r.Some? == (forall i :: i in m.types ==> Copyable(src[i], i, m.members))
    ensures r.Some? ==> IsMinimised(src, m, r.value.0, r.value.1)
  {
    r := CopyMarked(src, m);
    if r == None {
      return;
    }
    var (ids, copied) := r.value;
    CopiedRefs(src, m, ids, copied);
    var out := copied;
    for o := 1 to |copied|
      invariant |out| == |copied|
      invariant forall j :: 0 <= j < o ==> out[j] == Remap(copied[j], ids)
      invariant forall j :: o <= j < |out| ==> out[j] == copied[j]
    {
      out := out[o := Remap(out[o], ids)];
    }
    return Some((ids, out));
  }

  lemma CopiedRefs(src: seq<Type>, m: Marks, ids: seq<nat>, copied: seq<Type>)
    requires ValidBtf(src) && |ids| == |src| && |copied| > 0 && copied[0] == Void
    requires Numbers(ids, m.types, |src|, |copied| - 1)
    requires forall i :: 0 <= i < |src| && i in m.types ==> copied[ids[i]] == CopyOf(src[i], i, m.members)
    ensures forall o :: 0 <= o < |copied| ==> RefsBelow(copied[o], |ids|)
    ensures forall i :: 0 <= i < |src| ==> RefsBelow(CopyOf(src[i], i, m.members), |src|)
  {
    forall i | 0 <= i < |src|
      ensures RefsBelow(CopyOf(src[i], i, m.members), |src|)
    {
      forall j | 0 <= j < |Refs(src[i])|
        ensures Refs(src[i])[j] < |src|
      {
        assert Refs(src[i])[j] in Refs(src[i]);
      }
      CopyRefs(src[i], i, m.members, |src|);
    }
    forall o | 0 <= o < |copied|
      ensures RefsBelow(copied[o], |ids|)
    {
      if o > 0 {
        assert Numbered(ids, |src|, o);
        var i :| 0 <= i < |src| && ids[i] == o;
      }
    }
  }
}

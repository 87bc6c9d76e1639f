/**
  Type-based relocations: a local type matches, and is compatible with, the
  image of a recorded type in the minimised table exactly as with the type in
  the original one, and sizes and enumerators are kept.
 */
module BtfMatch {
  import opened Wrappers
  import opened Btf
  import opened BtfMark
  import opened BtfRecord
  import opened BtfClosure
  import opened BtfMinimise
  import opened BtfTheorems
  import opened BtfGen
  import opened Chains

  // ---------- names ----------

  /** bpf_core_is_flavor_sep: three underscores between other characters. */
  predicate FlavorSep(name: string, i: nat)
    requires i + 5 <= |name|
  {
    name[i] != '_' && name[i + 1..i + 4] == "___" && name[i + 4] != '_'
  }

  /** The position after the last flavour separator that starts below `n`. */
  function EssentialBelow(name: string, n: nat): (r: nat)
    requires n + 4 <= |name|
    ensures r <= |name|
  {
    if n == 0 then |name| else if FlavorSep(name, n - 1) then n else EssentialBelow(name, n - 1)
  }

  /** bpf_core_essential_name_len */
  function EssentialLen(name: string): (r: nat)
    ensures r <= |name|
  {
    if |name| < 5 then |name| else EssentialBelow(name, |name| - 4)
  }

  /** bpf_core_names_match */
  predicate NamesMatch(l: string, t: string) {
    if t == "" then l == "" else l[..EssentialLen(l)] == t[..EssentialLen(t)]
  }

  function NameOf(t: Type): string {
    match t
    case Leaf(_, name, _, _, _, _) => name
    case Mod(_, name, _) => name
    case Typedef(name, _) => name
    case Fwd(_, name, _) => name
    case Composite(_, name, _, _, _) => name
    case Other(name, _) => name
    case _ => ""
  }

  // ---------- matching ----------

  datatype Verdict = Error | No | Yes

  function Told(yes: bool): Verdict { if yes then Yes else No }

  predicate IsEnum(t: Type) { t.Leaf? && (t.kind.Enum? || t.kind.Enum64?) }

  /** bpf_core_enums_match: every local enumerator has one of the same name in the target. */
  predicate EnumsMatch(l: Type, t: Type)
    requires IsEnum(l) && IsEnum(t)
  {
    && l.size == t.size && |l.values| <= |t.values|
    && forall i :: 0 <= i < |l.values| ==> HasEnumerator(t.values, l.values[i].0)
  }

  predicate HasEnumerator(values: seq<(string, int)>, name: string) {
    exists j :: 0 <= j < |values| && NamesMatch(name, values[j].0)
  }

  ghost predicate MembersIn(types: seq<Type>, ms: seq<Member>) { forall i :: 0 <= i < |ms| ==> ms[i].typ < |types| }

  ghost predicate ParamsIn(types: seq<Type>, ps: seq<Param>) { forall i :: 0 <= i < |ps| ==> ps[i].typ < |types| }

  lemma TypeRefsIn(types: seq<Type>, i: nat)
    requires ValidBtf(types) && i < |types|
    ensures types[i].Composite? ==> MembersIn(types, types[i].members)
    ensures types[i].FuncProto? ==> types[i].ret < |types| && ParamsIn(types, types[i].params)
    ensures types[i].Ptr? ==> types[i].ref < |types|
    ensures types[i].Array? ==> types[i].elem < |types|
  {
    var t := types[i];
    forall j | 0 <= j < |Refs(t)|
      ensures Refs(t)[j] < |types|
    {
      assert Refs(t)[j] in Refs(t);
    }
    if t.Composite? {
      assert forall j :: 0 <= j < |t.members| ==> Refs(t)[j] == t.members[j].typ;
    }
    if t.Ptr? || t.Array? {
      assert Refs(t)[0] == if t.Ptr? then t.ref else t.elem;
    }
    if t.FuncProto? {
      assert Refs(t)[0] == t.ret;
      assert forall j :: 0 <= j < |t.params| ==> Refs(t)[j + 1] == t.params[j].typ;
    }
  }

  /** What the kinds and names of two types decide, and otherwise which of their parts do. */
  datatype Decision = Done(verdict: Verdict) | Members | Target | Element | Prototype

  function Decide(l: Type, t: Type, behind: bool): (d: Decision)
    ensures d.Members? ==> l.Composite? && t.Composite? && !behind
    ensures d.Target? ==> l.Ptr? && t.Ptr?
    ensures d.Element? ==> l.Array? && t.Array?
    ensures d.Prototype? ==> l.FuncProto? && t.FuncProto? && |l.params| == |t.params|
  {
    if !NamesMatch(NameOf(l), NameOf(t)) then Done(No) else
    match l
    case Void => Done(Told(t.Void?))
    case Fwd(u, _, _) => Done(Told((t.Fwd? || (behind && t.Composite?)) && t.isUnion == u))
    case Leaf(kind, _, size, isSigned, _, _) =>
      Done(if IsEnum(l) then Told(IsEnum(t) && EnumsMatch(l, t))
           else Told(kind.Int? && t.Leaf? && t.kind.Int? && t.size == size && t.isSigned == isSigned))
    case Composite(u, _, _, _, ms) =>
      if behind then Done(Told((t.Composite? || t.Fwd?) && t.isUnion == u))
      else if t.Composite? && t.isUnion == u && |ms| <= |t.members| then Members else Done(No)
    case Ptr(_) => if t.Ptr? then Target else Done(No)
    case Array(_, _, n) => if t.Array? && t.nelems == n then Element else Done(No)
    case FuncProto(_, ps) => if t.FuncProto? && |ps| == |t.params| then Prototype else Done(No)
    case _ => Done(No)
  }

  const MAX_MATCH_DEPTH := 32

  /** __bpf_core_types_match: `level` bounds the calls, a depth the jumps inside each of them. */
  ghost function TypesMatch(
      local: seq<Type>, lid: nat, targ: seq<Type>, tid: nat, behind: bool, level: nat): Verdict
    requires ValidBtf(local) && ValidBtf(targ) && lid < |local| && tid < |targ|
    decreases level, 4
  {
    if level == 0 then Error else Recur(local, lid, targ, tid, behind, MAX_MATCH_DEPTH, level)
  }

  ghost function Recur(
      local: seq<Type>, lid: nat, targ: seq<Type>, tid: nat, behind: bool, depth: nat, level: nat): Verdict
    requires ValidBtf(local) && ValidBtf(targ) && lid < |local| && tid < |targ| && level > 0
    decreases level, 3, depth, 1
  {
    if depth == 0 then Error else Compare(local, Skip(local, lid), targ, Skip(targ, tid), behind, depth, level)
  }

  /** The types found behind modifiers and typedefs. */
  ghost function Compare(
      local: seq<Type>, s: nat, targ: seq<Type>, e: nat, behind: bool, depth: nat, level: nat): Verdict
    requires ValidBtf(local) && ValidBtf(targ) && s < |local| && e < |targ| && depth > 0 && level > 0
    decreases level, 3, depth, 0
  {
    TypeRefsIn(local, s);
    TypeRefsIn(targ, e);
    var l, t := local[s], targ[e];
    match Decide(l, t, behind)
    case Done(v) => v
    case Members => MembersMatch(local, l.members, targ, t.members, level)
    case Target => Recur(local, l.ref, targ, t.ref, true, depth - 1, level)
    case Element => Recur(local, l.elem, targ, t.elem, behind, depth - 1, level)
    case Prototype =>
      var v := ParamsMatch(local, l.params, targ, t.params, behind, level);
      if v.Yes? then Recur(local, l.ret, targ, t.ret, behind, depth - 1, level) else v
  }

  /** bpf_core_composites_match: every local member has a matching one in the target. */
  ghost function MembersMatch(
      local: seq<Type>, ms: seq<Member>, targ: seq<Type>, tms: seq<Member>, level: nat): Verdict
    requires ValidBtf(local) && ValidBtf(targ) && MembersIn(local, ms) && MembersIn(targ, tms) && level > 0
    decreases level, 2, |ms|
  {
    if ms == [] then Yes else
    var v := MemberMatch(local, ms[0], targ, tms, level);
    if v.Yes? then MembersMatch(local, ms[1..], targ, tms, level) else v
  }

  /** The search for a member of the target. */
  ghost function MemberMatch(
      local: seq<Type>, lm: Member, targ: seq<Type>, tms: seq<Member>, level: nat): Verdict
    requires ValidBtf(local) && ValidBtf(targ) && lm.typ < |local| && MembersIn(targ, tms) && level > 0
    decreases level, 1, |tms|
  {
    if tms == [] then No else
    var v := if !NamesMatch(lm.name, tms[0].name) then No
             else TypesMatch(local, lm.typ, targ, tms[0].typ, false, level - 1);
    if v.No? then MemberMatch(local, lm, targ, tms[1..], level) else v
  }

  ghost function ParamsMatch(
      local: seq<Type>, ps: seq<Param>, targ: seq<Type>, tps: seq<Param>, behind: bool, level: nat): Verdict
    requires ValidBtf(local) && ValidBtf(targ) && ParamsIn(local, ps) && ParamsIn(targ, tps)
    requires |ps| == |tps| && level > 0
    decreases level, 2, |ps|
  {
    if ps == [] then Yes else
    var v := TypesMatch(local, ps[0].typ, targ, tps[0].typ, behind, level - 1);
    if v.Yes? then ParamsMatch(local, ps[1..], targ, tps[1..], behind, level) else v
  }

  // ---------- what a match looks at is marked ----------

  /** How a type is looked at: matched by value, matched behind a pointer, or for its existence. */
  datatype Look = ByValue | Behind | Existing

  function Looked(behind: bool): Look { if behind then Behind else ByValue }

  function Beyond(how: Look): Look { if how.ByValue? then Behind else how }

  /** A visit of the type that covers this is marked. */
  ghost predicate Seen(src: seq<Type>, m: Marks, i: nat, how: Look) {
    VisitsKept(src, m, Node(i, SeenMode(src, m, i, how)))
  }

  ghost function SeenMode(src: seq<Type>, m: Marks, i: nat, how: Look): Mode {
    match how
    case ByValue => Match(false)
    case Behind => Match(!VisitsKept(src, m, Node(i, Match(false))))
    case Existing => Plain(true)
  }

  lemma VisitKept(src: seq<Type>, m: Marks, n: Node)
    requires VisitsKept(src, m, n) && 0 < n.id < |src|
    ensures n in Visits(src, n) && n.id in m.types
    ensures forall k :: k in Kids(src, n) ==> VisitsKept(src, m, k)
  {
    VisitUnfolds(src, n);
    var all := Visits(src, n);
    assert n.id in Ids(all);
    forall k | k in Kids(src, n)
      ensures VisitsKept(src, m, k)
    {
      assert Visits(src, k) <= all;
      KeptSubset(src, Visits(src, k), all);
    }
  }

  lemma KeptSubset(src: seq<Type>, some: set<Node>, all: set<Node>)
    requires some <= all
    ensures Ids(some) <= Ids(all) && MembersOf(src, some) <= MembersOf(src, all)
  {
  }

  lemma SeenIsMarked(src: seq<Type>, m: Marks, i: nat, how: Look)
    requires i < |src| && Seen(src, m, i, how)
    ensures Has(m, i)
  {
    if i > 0 {
      VisitKept(src, m, Node(i, SeenMode(src, m, i, how)));
    }
  }

  /** The references that a look goes on to. */
  lemma SeenRefs(src: seq<Type>, m: Marks, i: nat, how: Look, r: nat)
    requires 0 < i < |src| && Seen(src, m, i, how) && r in Refs(src[i])
    requires var t := src[i]; IsModOrTypedef(t) || t.Ptr? || t.Array? || t.FuncProto? || (t.Composite? && how.ByValue?)
    ensures Seen(src, m, r, if src[i].Ptr? then Beyond(how) else how)
  {
    var n := Node(i, SeenMode(src, m, i, how));
    VisitKept(src, m, n);
    hide VisitsKept;
    KidsAreRefs(src, n);
    hide Kids;
    hide Refs;
    var j :| 0 <= j < |Refs(src[i])| && Refs(src[i])[j] == r;
    assert Kids(src, n)[j] in Kids(src, n);
  }

  /** All members of a composite matched by value are marked. */
  lemma SeenMembers(src: seq<Type>, m: Marks, i: nat, j: nat)
    requires 0 < i < |src| && Seen(src, m, i, ByValue) && src[i].Composite? && j < |src[i].members|
    ensures (i, j) in m.members && Seen(src, m, src[i].members[j].typ, ByValue)
  {
    var n := Node(i, Match(false));
    VisitKept(src, m, n);
    assert (i, j) in MembersOf(src, Visits(src, n));
    assert Refs(src[i])[j] == src[i].members[j].typ;
    SeenRefs(src, m, i, ByValue, src[i].members[j].typ);
  }

  lemma {:induction false} SeenSkip(src: seq<Type>, m: Marks, i: nat, how: Look)
    requires ValidBtf(src) && i < |src| && Seen(src, m, i, how)
    ensures Seen(src, m, Skip(src, i), how)
    decreases Visits(src, Node(i, Plain(false)))
  {
    hide Seen;
    if IsModOrTypedef(src[i]) && Ends(KidsOf(src), Node(i, Plain(false))) {
      SkipStep(src, i);
      assert Refs(src[i])[0] == src[i].ref;
      SeenRefs(src, m, i, how, src[i].ref);
      SeenSkip(src, m, src[i].ref, how);
    }
  }

  /** A composite all of whose members are marked is copied whole. */
  lemma {:induction false} ShrunkWhole(t: Type, id: nat, members: set<(nat, nat)>, n: nat)
    requires t.Composite? && n <= |t.members| && forall j :: 0 <= j < n ==> (id, j) in members
    ensures Shrunk(t, id, members, n).members == t.members[..n]
  {
    if n > 0 {
      ShrunkWhole(t, id, members, n - 1);
      RepackedSame(t, n - 1);
      assert t.members[..n] == t.members[..n - 1] + [t.members[n - 1]];
    }
  }

  // ---------- the image of a type ----------

  /** `ms'` are the members `ms` with their types renumbered, and a match may look at all of them. */
  ghost predicate MembersImage(src: seq<Type>, m: Marks, ids: seq<nat>, ms: seq<Member>, ms': seq<Member>) {
    |ms| == |ms'| && forall j :: 0 <= j < |ms| ==>
      && ms[j].typ < |src| == |ids| && Seen(src, m, ms[j].typ, ByValue)
      && ms'[j].name == ms[j].name && ms'[j].typ == ids[ms[j].typ]
  }

  ghost predicate ParamsImage(src: seq<Type>, m: Marks, ids: seq<nat>, ps: seq<Param>, ps': seq<Param>, how: Look) {
    |ps| == |ps'| && forall j :: 0 <= j < |ps| ==>
      && ps[j].typ < |src| == |ids| && Seen(src, m, ps[j].typ, how) && ps'[j].typ == ids[ps[j].typ]
  }

  /** What a match sees of a type and of its image. */
  ghost predicate Alike(src: seq<Type>, m: Marks, ids: seq<nat>, t: Type, t': Type, how: Look) {
    match t
    case Fwd(u, name, _) => t'.Fwd? && t'.isUnion == u && t'.name == name
    case Composite(u, name, _, _, ms) =>
      && t'.Composite? && t'.isUnion == u && t'.name == name
      && (how.ByValue? ==> MembersImage(src, m, ids, ms, t'.members))
    case Ptr(r) => t'.Ptr? && r < |src| == |ids| && t'.ref == ids[r] && Seen(src, m, r, Beyond(how))
    case Array(a, _, n) =>
      t'.Array? && a < |src| == |ids| && t'.elem == ids[a] && t'.nelems == n && Seen(src, m, a, how)
    case FuncProto(r, ps) =>
      && t'.FuncProto? && r < |src| == |ids| && t'.ret == ids[r] && Seen(src, m, r, how)
      && ParamsImage(src, m, ids, ps, t'.params, how)
    case Void | Leaf(_, _, _, _, _, _) => t' == t
    case Mod(k, name, _) => t'.Mod? && t'.mod == k && t'.name == name
    case Typedef(name, _) => t'.Typedef? && t'.name == name
    case Other(name, _) => t'.Other? && t'.name == name
  }

  lemma ImageIsAlike(src: seq<Type>, m: Marks, ids: seq<nat>, out: seq<Type>, i: nat, how: Look)
    requires Generated(src, m, ids, out) && i < |src| && Seen(src, m, i, how)
    ensures |ids| == |src| && ids[i] < |out| && Alike(src, m, ids, src[i], out[ids[i]], how)
  {
    SeenIsMarked(src, m, i, how);
    ImageOf(src, m, ids, out, i);
    TypeRefsIn(src, i);
    hide Generated;
    hide Seen;
    var t := src[i];
    if t.Composite? {
      if how.ByValue? {
        MembersAreImages(src, m, ids, i);
      }
      hide MembersImage;
    } else if t.FuncProto? {
      ProtoIsAlike(src, m, ids, i, how);
      hide ParamsImage;
    } else if t.Ptr? || t.Array? {
      SeenRefs(src, m, i, how, Refs(t)[0]);
    }
  }

  lemma ProtoIsAlike(src: seq<Type>, m: Marks, ids: seq<nat>, i: nat, how: Look)
    requires 0 < i < |src| == |ids| && src[i].FuncProto? && src[i].ret < |src| && ParamsIn(src, src[i].params)
    requires Seen(src, m, i, how) && RefsBelow(src[i], |ids|)
    ensures Seen(src, m, src[i].ret, how)
    ensures ParamsImage(src, m, ids, src[i].params, Remap(src[i], ids).params, how)
  {
    var t := src[i];
    hide Seen;
    assert Refs(t)[0] == t.ret;
    SeenRefs(src, m, i, how, t.ret);
    forall j | 0 <= j < |t.params|
      ensures Seen(src, m, t.params[j].typ, how)
    {
      assert Refs(t)[j + 1] == t.params[j].typ;
      SeenRefs(src, m, i, how, t.params[j].typ);
    }
  }

  lemma MembersAreImages(src: seq<Type>, m: Marks, ids: seq<nat>, i: nat)
    requires 0 < i < |src| == |ids| && src[i].Composite? && MembersIn(src, src[i].members) && Seen(src, m, i, ByValue)
    requires RefsBelow(CopyOf(src[i], i, m.members), |ids|)
    ensures MembersImage(src, m, ids, src[i].members, Remap(CopyOf(src[i], i, m.members), ids).members)
  {
    var t := src[i];
    forall j | 0 <= j < |t.members|
      ensures (i, j) in m.members && Seen(src, m, t.members[j].typ, ByValue)
    {
      SeenMembers(src, m, i, j);
    }
    hide Seen;
    ShrunkWhole(t, i, m.members, |t.members|);
    assert t.members[..|t.members|] == t.members;
  }

  // ---------- matching the image ----------

  /** The type behind modifiers and typedefs, in the output. */
  lemma SkipSeen(src: seq<Type>, m: Marks, ids: seq<nat>, out: seq<Type>, i: nat, how: Look)
    requires Generated(src, m, ids, out) && ValidBtf(src) && ValidBtf(out) && i < |src| && Seen(src, m, i, how)
    ensures |ids| == |src| && ids[i] < |out| && Skip(out, ids[i]) == ids[Skip(src, i)]
    ensures Seen(src, m, Skip(src, i), how)
  {
    hide Generated;
    hide ValidBtf;
    hide Seen;
    SeenIsMarked(src, m, i, how);
    SkipImage(src, m, ids, out, i);
    SeenSkip(src, m, i, how);
  }

  /** A local type matches the image of a type as it matches the type, whatever the bounds of the recursion are. */
  lemma {:induction false} MatchPreserved(
      local: seq<Type>, lid: nat, src: seq<Type>, m: Marks, ids: seq<nat>, out: seq<Type>, i: nat,
      behind: bool, level: nat)
    requires ValidBtf(local) && lid < |local|
    requires Generated(src, m, ids, out) && ValidBtf(src) && ValidBtf(out)
    requires i < |src| && Seen(src, m, i, Looked(behind))
    ensures |ids| == |src| && ids[i] < |out|
    ensures TypesMatch(local, lid, out, ids[i], behind, level) == TypesMatch(local, lid, src, i, behind, level)
    decreases level, 4
  {
    hide Generated;
    ImageIsAlike(src, m, ids, out, i, Looked(behind));
    if level > 0 {
      RecurPreserved(local, lid, src, m, ids, out, i, behind, MAX_MATCH_DEPTH, level);
    }
  }

  lemma {:induction false} RecurPreserved(
      local: seq<Type>, lid: nat, src: seq<Type>, m: Marks, ids: seq<nat>, out: seq<Type>, i: nat,
      behind: bool, depth: nat, level: nat)
    requires ValidBtf(local) && lid < |local| && level > 0
    requires Generated(src, m, ids, out) && ValidBtf(src) && ValidBtf(out)
    requires i < |src| && Seen(src, m, i, Looked(behind))
    ensures |ids| == |src| && ids[i] < |out|
    ensures Recur(local, lid, out, ids[i], behind, depth, level) == Recur(local, lid, src, i, behind, depth, level)
    decreases level, 3, depth, 1
  {
    hide Generated;
    hide ValidBtf;
    hide Seen;
    hide Skip;
    hide Compare;
    SkipSeen(src, m, ids, out, i, Looked(behind));
    if depth > 0 {
      ComparePreserved(local, Skip(local, lid), src, m, ids, out, Skip(src, i), behind, depth, level);
    }
  }

  lemma {:induction false} ComparePreserved(
      local: seq<Type>, s: nat, src: seq<Type>, m: Marks, ids: seq<nat>, out: seq<Type>, e: nat,
      behind: bool, depth: nat, level: nat)
    requires ValidBtf(local) && s < |local| && depth > 0 && level > 0
    requires Generated(src, m, ids, out) && ValidBtf(src) && ValidBtf(out)
    requires e < |src| && Seen(src, m, e, Looked(behind))
    ensures |ids| == |src| && ids[e] < |out|
    ensures Compare(local, s, out, ids[e], behind, depth, level) == Compare(local, s, src, e, behind, depth, level)
    decreases level, 3, depth, 0
  {
    hide Generated;
    hide ValidBtf;
    hide Seen;
    hide Recur;
    hide Decide;
    hide MembersImage;
    hide ParamsImage;
    hide MembersMatch;
    hide ParamsMatch;
    ImageIsAlike(src, m, ids, out, e, Looked(behind));
    TypeRefsIn(local, s);
    TypeRefsIn(src, e);
    TypeRefsIn(out, ids[e]);
    var l, t, t' := local[s], src[e], out[ids[e]];
    DecidedAlike(src, m, ids, l, t, t', behind);
    match Decide(l, t, behind)
    case Members => MembersPreserved(local, l.members, src, m, ids, out, t.members, t'.members, level);
    case Target => RecurPreserved(local, l.ref, src, m, ids, out, t.ref, true, depth - 1, level);
    case Element => RecurPreserved(local, l.elem, src, m, ids, out, t.elem, behind, depth - 1, level);
    case Prototype =>
      ParamsPreserved(local, l.params, src, m, ids, out, t.params, t'.params, behind, level);
      RecurPreserved(local, l.ret, src, m, ids, out, t.ret, behind, depth - 1, level);
    case _ =>
  }

  lemma DecidedAlike(src: seq<Type>, m: Marks, ids: seq<nat>, l: Type, t: Type, t': Type, behind: bool)
    requires Alike(src, m, ids, t, t', Looked(behind))
    ensures Decide(l, t', behind) == Decide(l, t, behind)
  {
    hide NamesMatch;
    hide EnumsMatch;
    hide Seen;
  }

  lemma {:induction false} MembersPreserved(
      local: seq<Type>, ms: seq<Member>, src: seq<Type>, m: Marks, ids: seq<nat>, out: seq<Type>,
      tms: seq<Member>, tms': seq<Member>, level: nat)
    requires ValidBtf(local) && MembersIn(local, ms) && level > 0
    requires Generated(src, m, ids, out) && ValidBtf(src) && ValidBtf(out)
    requires MembersIn(src, tms) && MembersIn(out, tms') && MembersImage(src, m, ids, tms, tms')
    ensures MembersMatch(local, ms, out, tms', level) == MembersMatch(local, ms, src, tms, level)
    decreases level, 2, |ms|
  {
    hide Generated;
    hide ValidBtf;
    hide MembersImage;
    hide MemberMatch;
    if ms != [] {
      MemberPreserved(local, ms[0], src, m, ids, out, tms, tms', level);
      MembersPreserved(local, ms[1..], src, m, ids, out, tms, tms', level);
    }
  }

  lemma {:induction false} MemberPreserved(
      local: seq<Type>, lm: Member, src: seq<Type>, m: Marks, ids: seq<nat>, out: seq<Type>,
      tms: seq<Member>, tms': seq<Member>, level: nat)
    requires ValidBtf(local) && lm.typ < |local| && level > 0
    requires Generated(src, m, ids, out) && ValidBtf(src) && ValidBtf(out)
    requires MembersIn(src, tms) && MembersIn(out, tms') && MembersImage(src, m, ids, tms, tms')
    ensures MemberMatch(local, lm, out, tms', level) == MemberMatch(local, lm, src, tms, level)
    decreases level, 1, |tms|
  {
    hide Generated;
    hide ValidBtf;
    hide Seen;
    hide NamesMatch;
    hide TypesMatch;
    if tms != [] {
      MatchPreserved(local, lm.typ, src, m, ids, out, tms[0].typ, false, level - 1);
      MemberPreserved(local, lm, src, m, ids, out, tms[1..], tms'[1..], level);
    }
  }

  lemma {:induction false} ParamsPreserved(
      local: seq<Type>, ps: seq<Param>, src: seq<Type>, m: Marks, ids: seq<nat>, out: seq<Type>,
      tps: seq<Param>, tps': seq<Param>, behind: bool, level: nat)
    requires ValidBtf(local) && ParamsIn(local, ps) && level > 0 && |ps| == |tps|
    requires Generated(src, m, ids, out) && ValidBtf(src) && ValidBtf(out)
    requires ParamsIn(src, tps) && ParamsIn(out, tps') && ParamsImage(src, m, ids, tps, tps', Looked(behind))
    ensures ParamsMatch(local, ps, out, tps', behind, level) == ParamsMatch(local, ps, src, tps, behind, level)
    decreases level, 2, |ps|
  {
    hide Generated;
    hide ValidBtf;
    hide Seen;
    hide TypesMatch;
    if ps != [] {
      MatchPreserved(local, ps[0].typ, src, m, ids, out, tps[0].typ, behind, level - 1);
      ParamsPreserved(local, ps[1..], src, m, ids, out, tps[1..], tps'[1..], behind, level);
    }
  }

  /** A recorded matching relocation: every local type matches its root in the output exactly when it
      matches it in the original. */
  lemma RecordedMatchPreserved(
      local: seq<Type>, lid: nat, src: seq<Type>, m: Marks, ids: seq<nat>, out: seq<Type>, root: nat, level: nat)
    requires ValidBtf(local) && lid < |local| && Generated(src, m, ids, out) && ValidBtf(src) && root < |src|
    requires Satisfied(src, m, TypeMatches(root))
    ensures ValidBtf(out) && |ids| == |src| && ids[root] < |out|
    ensures TypesMatch(local, lid, out, ids[root], false, level) == TypesMatch(local, lid, src, root, false, level)
  {
    OutputIsValid(src, m, ids, out);
    hide Generated;
    hide ValidBtf;
    MatchPreserved(local, lid, src, m, ids, out, root, false, level);
  }

  // ---------- compatible types ----------

  /** btf_kind_core_compat; for the kinds that are not distinguished the types are incompatible anyway. */
  predicate KindsAgree(l: Type, t: Type) {
    match l
    case Void => t.Void?
    case Leaf(kind, _, _, _, _, _) => t.Leaf? && (kind == t.kind || (IsEnum(l) && IsEnum(t)))
    case Ptr(_) => t.Ptr?
    case Mod(k, _, _) => t.Mod? && t.mod == k
    case Typedef(_, _) => t.Typedef?
    case Fwd(_, _, _) => t.Fwd?
    case Array(_, _, _) => t.Array?
    case Composite(u, _, _, _, _) => t.Composite? && t.isUnion == u
    case FuncProto(_, _) => t.FuncProto?
    case Other(_, _) => false
  }

  function DecideCompat(l: Type, t: Type): (d: Decision)
    ensures !d.Members?
    ensures d.Target? ==> l.Ptr? && t.Ptr?
    ensures d.Element? ==> l.Array? && t.Array?
    ensures d.Prototype? ==> l.FuncProto? && t.FuncProto? && |l.params| == |t.params|
  {
    if !KindsAgree(l, t) then Done(No) else
    match l
    case Void | Composite(_, _, _, _, _) | Fwd(_, _, _) => Done(Yes)
    case Leaf(kind, _, _, _, off, _) => Done(Told(IsEnum(l) || (kind.Int? && off == 0 && t.bitOffset == 0)))
    case Ptr(_) => Target
    case Array(_, _, _) => Element
    case FuncProto(_, ps) => if |ps| == |t.params| then Prototype else Done(No)
    case _ => Done(No)
  }

  /** __bpf_core_types_are_compat */
  ghost function Compat(local: seq<Type>, lid: nat, targ: seq<Type>, tid: nat, level: nat): Verdict
    requires ValidBtf(local) && ValidBtf(targ) && lid < |local| && tid < |targ|
    decreases level, 4
  {
    if KindsAgree(local[lid], targ[tid]) then CompatRecur(local, lid, targ, tid, MAX_MATCH_DEPTH, level) else No
  }

  ghost function CompatRecur(local: seq<Type>, lid: nat, targ: seq<Type>, tid: nat, depth: nat, level: nat): Verdict
    requires ValidBtf(local) && ValidBtf(targ) && lid < |local| && tid < |targ|
    decreases level, 3, depth, 1
  {
    if depth == 0 then Error else CompatCompare(local, Skip(local, lid), targ, Skip(targ, tid), depth, level)
  }

  ghost function CompatCompare(local: seq<Type>, s: nat, targ: seq<Type>, e: nat, depth: nat, level: nat): Verdict
    requires ValidBtf(local) && ValidBtf(targ) && s < |local| && e < |targ| && depth > 0
    decreases level, 3, depth, 0
  {
    TypeRefsIn(local, s);
    TypeRefsIn(targ, e);
    var l, t := local[s], targ[e];
    match DecideCompat(l, t)
    case Done(v) => v
    case Target => CompatRecur(local, l.ref, targ, t.ref, depth - 1, level)
    case Element => CompatRecur(local, l.elem, targ, t.elem, depth - 1, level)
    case Prototype =>
      var v := CompatParams(local, l.params, targ, t.params, level);
      if v.Yes? then CompatRecur(local, Skip(local, l.ret), targ, Skip(targ, t.ret), depth - 1, level) else v
  }

  ghost function CompatParams(local: seq<Type>, ps: seq<Param>, targ: seq<Type>, tps: seq<Param>, level: nat): Verdict
    requires ValidBtf(local) && ValidBtf(targ) && ParamsIn(local, ps) && ParamsIn(targ, tps) && |ps| == |tps|
    decreases level, 2, |ps|
  {
    if ps == [] then Yes else
    if level == 0 then Error else
    var v := Compat(local, Skip(local, ps[0].typ), targ, Skip(targ, tps[0].typ), level - 1);
    if v.Yes? then CompatParams(local, ps[1..], targ, tps[1..], level) else v
  }

  lemma CompatDecidedAlike(src: seq<Type>, m: Marks, ids: seq<nat>, l: Type, t: Type, t': Type)
    requires Alike(src, m, ids, t, t', Existing)
    ensures DecideCompat(l, t') == DecideCompat(l, t) && KindsAgree(l, t') == KindsAgree(l, t)
  {
    hide Seen;
  }

  /** A local type is compatible with the image of a type exactly as it is with the type. */
  lemma {:induction false} CompatPreserved(
      local: seq<Type>, lid: nat, src: seq<Type>, m: Marks, ids: seq<nat>, out: seq<Type>, i: nat, level: nat)
    requires ValidBtf(local) && lid < |local|
    requires Generated(src, m, ids, out) && ValidBtf(src) && ValidBtf(out) && i < |src| && Seen(src, m, i, Existing)
    ensures |ids| == |src| && ids[i] < |out|
    ensures Compat(local, lid, out, ids[i], level) == Compat(local, lid, src, i, level)
    decreases level, 4
  {
    hide Generated;
    hide ValidBtf;
    hide Seen;
    hide CompatRecur;
    ImageIsAlike(src, m, ids, out, i, Existing);
    CompatDecidedAlike(src, m, ids, local[lid], src[i], out[ids[i]]);
    hide KindsAgree;
    hide Alike;
    CompatRecurPreserved(local, lid, src, m, ids, out, i, MAX_MATCH_DEPTH, level);
  }

  lemma {:induction false} CompatRecurPreserved(
      local: seq<Type>, lid: nat, src: seq<Type>, m: Marks, ids: seq<nat>, out: seq<Type>, i: nat,
      depth: nat, level: nat)
    requires ValidBtf(local) && lid < |local|
    requires Generated(src, m, ids, out) && ValidBtf(src) && ValidBtf(out) && i < |src| && Seen(src, m, i, Existing)
    ensures |ids| == |src| && ids[i] < |out|
    ensures CompatRecur(local, lid, out, ids[i], depth, level) == CompatRecur(local, lid, src, i, depth, level)
    decreases level, 3, depth, 1
  {
    hide Generated;
    hide ValidBtf;
    hide Seen;
    hide Skip;
    hide CompatCompare;
    SkipSeen(src, m, ids, out, i, Existing);
    if depth > 0 {
      CompatComparePreserved(local, Skip(local, lid), src, m, ids, out, Skip(src, i), depth, level);
    }
  }

  lemma {:induction false} CompatComparePreserved(
      local: seq<Type>, s: nat, src: seq<Type>, m: Marks, ids: seq<nat>, out: seq<Type>, e: nat, depth: nat, level: nat)
    requires ValidBtf(local) && s < |local| && depth > 0
    requires Generated(src, m, ids, out) && ValidBtf(src) && ValidBtf(out) && e < |src| && Seen(src, m, e, Existing)
    ensures |ids| == |src| && ids[e] < |out|
    ensures CompatCompare(local, s, out, ids[e], depth, level) == CompatCompare(local, s, src, e, depth, level)
    decreases level, 3, depth, 0
  {
    hide Generated;
    hide ValidBtf;
    hide Seen;
    hide Skip;
    hide CompatRecur;
    hide CompatParams;
    hide DecideCompat;
    hide ParamsImage;
    ImageIsAlike(src, m, ids, out, e, Existing);
    TypeRefsIn(local, s);
    TypeRefsIn(src, e);
    TypeRefsIn(out, ids[e]);
    var l, t, t' := local[s], src[e], out[ids[e]];
    CompatDecidedAlike(src, m, ids, l, t, t');
    match DecideCompat(l, t)
    case Target => CompatRecurPreserved(local, l.ref, src, m, ids, out, t.ref, depth - 1, level);
    case Element => CompatRecurPreserved(local, l.elem, src, m, ids, out, t.elem, depth - 1, level);
    case Prototype =>
      CompatParamsPreserved(local, l.params, src, m, ids, out, t.params, t'.params, level);
      SkipSeen(src, m, ids, out, t.ret, Existing);
      CompatRecurPreserved(local, Skip(local, l.ret), src, m, ids, out, Skip(src, t.ret), depth - 1, level);
    case _ =>
  }

  lemma {:induction false} CompatParamsPreserved(
      local: seq<Type>, ps: seq<Param>, src: seq<Type>, m: Marks, ids: seq<nat>, out: seq<Type>,
      tps: seq<Param>, tps': seq<Param>, level: nat)
    requires ValidBtf(local) && ParamsIn(local, ps) && |ps| == |tps|
    requires Generated(src, m, ids, out) && ValidBtf(src) && ValidBtf(out)
    requires ParamsIn(src, tps) && ParamsIn(out, tps') && ParamsImage(src, m, ids, tps, tps', Existing)
    ensures CompatParams(local, ps, out, tps', level) == CompatParams(local, ps, src, tps, level)
    decreases level, 2, |ps|
  {
    hide Generated;
    hide ValidBtf;
    hide Seen;
    hide Skip;
    hide Compat;
    if ps != [] && level > 0 {
      SkipSeen(src, m, ids, out, tps[0].typ, Existing);
      CompatPreserved(local, Skip(local, ps[0].typ), src, m, ids, out, Skip(src, tps[0].typ), level - 1);
      CompatParamsPreserved(local, ps[1..], src, m, ids, out, tps[1..], tps'[1..], level);
    }
  }

  /** A recorded existence relocation: every local type is compatible with its root in the output exactly when
      it is in the original. */
  lemma RecordedTypePreserved(
      local: seq<Type>, lid: nat, src: seq<Type>, m: Marks, ids: seq<nat>, out: seq<Type>, root: nat, level: nat)
    requires ValidBtf(local) && lid < |local| && Generated(src, m, ids, out) && ValidBtf(src) && root < |src|
    requires Satisfied(src, m, TypeBased(root))
    ensures ValidBtf(out) && |ids| == |src| && ids[root] < |out|
    ensures Compat(local, lid, out, ids[root], level) == Compat(local, lid, src, root, level)
  {
    OutputIsValid(src, m, ids, out);
    hide Generated;
    hide ValidBtf;
    CompatPreserved(local, lid, src, m, ids, out, root, level);
  }

  // ---------- enumeration and size relocations ----------

  /** The value of the first enumerator with the same name. */
  function Named(values: seq<(string, int)>, name: string): Option<int> {
    if values == [] then None
    else if name[..EssentialLen(name)] == values[0].0[..EssentialLen(values[0].0)] then Some(values[0].1)
    else Named(values[1..], name)
  }

  /** The value of an enumeration relocation: none when the type is no enumeration or has no such enumerator. */
  ghost function EnumeratorValue(types: seq<Type>, root: nat, name: string): Option<int>
    requires ValidBtf(types) && root < |types|
  {
    var t := types[Skip(types, root)];
    if IsEnum(t) then Named(t.values, name) else None
  }

  /** A recorded type has its size in the output, a recorded enumeration its enumerators. */
  lemma TypeRelocationPreserved(
      src: seq<Type>, m: Marks, ids: seq<nat>, out: seq<Type>, ptrSize: nat, name: string, r: Relo)
    requires Generated(src, m, ids, out) && ValidBtf(src)
    requires (r.TypeBased? || r.EnumValue?) && Resolved(src, r) && Satisfied(src, m, r)
    ensures ValidBtf(out) && r.root < |ids| && ids[r.root] < |out|
    ensures SizeOf(out, ptrSize, ids[r.root]) == SizeOf(src, ptrSize, r.root)
    ensures EnumeratorValue(out, ids[r.root], name) == EnumeratorValue(src, r.root, name)
  {
    if r.root > 0 {
      VisitKept(src, m, Node(r.root, Plain(r.TypeBased?)));
    }
    OutputIsValid(src, m, ids, out);
    hide Visits;
    hide Generated;
    hide ValidBtf;
    hide Named;
    SizeKept(src, m, ids, out, ptrSize, r.root, 1, MAX_RESOLVE_DEPTH);
    SkipImage(src, m, ids, out, r.root);
    hide Skip;
    ImageOf(src, m, ids, out, r.root);
    var e := Skip(src, r.root);
    ImageOf(src, m, ids, out, e);
    LeafKept(src, m, ids, out, e);
  }
}

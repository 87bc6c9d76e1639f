/**
  What matching and compatibility of types mean: names up to their flavour,
  kinds and parts must agree, and every type matches itself.
 */
module BtfMatchLaws {
  import opened Wrappers
  import opened Btf
  import opened BtfRecord
  import opened BtfMatch

  // ---------- names ----------

  /** Three underscores between other characters, from position `i` on. */
  predicate FlavorAt(name: string, i: int) {
    0 < i < |name| - 3 && name[i - 1] != '_' && name[i] == name[i + 1] == name[i + 2] == '_' && name[i + 3] != '_'
  }

  /** The essential part of a name ends before the last such underscores; without them it is the whole name. */
  lemma EssentialIs(name: string)
    ensures
      var r := EssentialLen(name);
      (r == |name| || FlavorAt(name, r)) && forall i :: FlavorAt(name, i) ==> i <= r
  {
    if |name| >= 5 {
      EssentialBelowIs(name, |name| - 4);
    }
  }

  lemma {:induction false} EssentialBelowIs(name: string, n: nat)
    requires n + 4 <= |name|
    ensures
      var r := EssentialBelow(name, n);
      (r == |name| || FlavorAt(name, r)) && forall i :: i <= n && FlavorAt(name, i) ==> i <= r
  {
    if n > 0 {
      EssentialBelowIs(name, n - 1);
      assert FlavorSep(name, n - 1) <==> FlavorAt(name, n) by {
        assert name[n..n + 3] == [name[n], name[n + 1], name[n + 2]];
      }
    }
  }

  // ---------- what a match requires ----------

  ghost predicate SameName(l: string, t: string) { l[..EssentialLen(l)] == t[..EssentialLen(t)] }

  lemma NamesMatchIff(l: string, t: string)
    ensures NamesMatch(l, t) <==> SameName(l, t)
  {
    EssentialIs(l);
    EssentialIs(t);
    if t == "" && SameName(l, t) {
      assert EssentialLen(l) == 0;
    }
  }

  /** The two types have the same name and kind, except that an enumeration may have another width, and behind a
      pointer a composite may be declared only.  Integers have the same size and sign, enumerations the same size and
      the local enumerators, arrays as many elements, prototypes as many parameters, and the parts match. */
  ghost predicate Agreeing(local: seq<Type>, s: nat, targ: seq<Type>, e: nat, behind: bool, level: nat)
    requires ValidBtf(local) && ValidBtf(targ) && s < |local| && e < |targ| && level > 0
  {
    var l, t := local[s], targ[e];
    && SameName(NameOf(l), NameOf(t)) && !l.Other? && !l.Mod? && !l.Typedef?
    && (l.Void? ==> t.Void?)
    && (l.Fwd? ==> (t.Fwd? || (behind && t.Composite?)) && t.isUnion == l.isUnion)
    && (l.Leaf? && l.kind == Int ==> t.Leaf? && t.kind == Int && t.size == l.size && t.isSigned == l.isSigned)
    && (l.Leaf? && l.kind != Int ==> IsEnum(l) && IsEnum(t) && t.size == l.size && EnumeratorsIn(l.values, t.values))
    && (l.Composite? ==> (t.Composite? || (behind && t.Fwd?)) && t.isUnion == l.isUnion)
    && (l.Composite? && !behind ==>
          && MembersIn(local, l.members) && MembersIn(targ, t.members)
          && MembersFound(local, l.members, targ, t.members, level - 1))
    && (l.Ptr? ==> t.Ptr?)
    && (l.Array? ==> t.Array? && t.nelems == l.nelems)
    && (l.FuncProto? ==>
          && t.FuncProto? && |t.params| == |l.params| && ParamsIn(local, l.params) && ParamsIn(targ, t.params)
          && ParamsAgree(local, l.params, targ, t.params, behind, level - 1))
  }

  /** Types that match agree in this way, behind modifiers and typedefs. */
  lemma MatchRequires(local: seq<Type>, lid: nat, targ: seq<Type>, tid: nat, behind: bool, level: nat)
    requires ValidBtf(local) && ValidBtf(targ) && lid < |local| && tid < |targ|
    requires TypesMatch(local, lid, targ, tid, behind, level) == Yes
    ensures level > 0 && Agreeing(local, Skip(local, lid), targ, Skip(targ, tid), behind, level)
  {
    hide ValidBtf;
    hide Skip;
    hide Agreeing;
    CompareRequires(local, Skip(local, lid), targ, Skip(targ, tid), behind, MAX_MATCH_DEPTH, level);
  }

  lemma CompareRequires(local: seq<Type>, s: nat, targ: seq<Type>, e: nat, behind: bool, depth: nat, level: nat)
    requires ValidBtf(local) && ValidBtf(targ) && s < |local| && e < |targ| && depth > 0 && level > 0
    requires Compare(local, s, targ, e, behind, depth, level) == Yes
    ensures Agreeing(local, s, targ, e, behind, level)
  {
    hide ValidBtf;
    hide NamesMatch;
    hide SameName;
    hide EnumeratorsIn;
    hide EnumsMatch;
    var l, t := local[s], targ[e];
    TypeRefsIn(local, s);
    TypeRefsIn(targ, e);
    NamesMatchIff(NameOf(l), NameOf(t));
    if l.Composite? && !behind {
      AllFound(local, l.members, targ, t.members, level);
    }
    if l.FuncProto? {
      AllAgree(local, l.params, targ, t.params, behind, level);
    }
    if IsEnum(l) {
      Enumerators(l, t);
    }
  }

  ghost predicate EnumeratorsIn(ls: seq<(string, int)>, ts: seq<(string, int)>) {
    forall i :: 0 <= i < |ls| ==> EnumeratorIn(ls[i].0, ts)
  }

  ghost predicate EnumeratorIn(name: string, ts: seq<(string, int)>) {
    exists j :: 0 <= j < |ts| && SameName(name, ts[j].0)
  }

  lemma Enumerators(l: Type, t: Type)
    requires IsEnum(l) && IsEnum(t) && EnumsMatch(l, t)
    ensures l.size == t.size && EnumeratorsIn(l.values, t.values)
  {
    hide SameName;
    hide NamesMatch;
    forall i | 0 <= i < |l.values|
      ensures EnumeratorIn(l.values[i].0, t.values)
    {
      assert HasEnumerator(t.values, l.values[i].0);
      var j :| 0 <= j < |t.values| && NamesMatch(l.values[i].0, t.values[j].0);
      NamesMatchIff(l.values[i].0, t.values[j].0);
    }
  }

  /** Every local member has a member of the same name in the target whose type matches. */
  ghost predicate MembersFound(local: seq<Type>, ms: seq<Member>, targ: seq<Type>, tms: seq<Member>, level: nat)
    requires ValidBtf(local) && ValidBtf(targ) && MembersIn(local, ms) && MembersIn(targ, tms)
  {
    forall i :: 0 <= i < |ms| ==> MemberFound(local, ms[i], targ, tms, level)
  }

  ghost predicate MemberFound(local: seq<Type>, lm: Member, targ: seq<Type>, tms: seq<Member>, level: nat)
    requires ValidBtf(local) && ValidBtf(targ) && lm.typ < |local| && MembersIn(targ, tms)
  {
    exists j :: 0 <= j < |tms| && SameName(lm.name, tms[j].name) &&
      TypesMatch(local, lm.typ, targ, tms[j].typ, false, level) == Yes
  }

  lemma {:induction false} AllFound(local: seq<Type>, ms: seq<Member>, targ: seq<Type>, tms: seq<Member>, level: nat)
    requires ValidBtf(local) && ValidBtf(targ) && MembersIn(local, ms) && MembersIn(targ, tms) && level > 0
    requires MembersMatch(local, ms, targ, tms, level) == Yes
    ensures MembersFound(local, ms, targ, tms, level - 1)
    decreases |ms|
  {
    hide ValidBtf;
    hide MemberFound;
    hide MemberMatch;
    if ms != [] {
      OneFound(local, ms[0], targ, tms, level);
      AllFound(local, ms[1..], targ, tms, level);
    }
  }

  lemma {:induction false} OneFound(local: seq<Type>, lm: Member, targ: seq<Type>, tms: seq<Member>, level: nat)
    requires ValidBtf(local) && ValidBtf(targ) && lm.typ < |local| && MembersIn(targ, tms) && level > 0
    requires MemberMatch(local, lm, targ, tms, level) == Yes
    ensures MemberFound(local, lm, targ, tms, level - 1)
    decreases |tms|
  {
    hide ValidBtf;
    hide TypesMatch;
    hide NamesMatch;
    hide SameName;
    if tms != [] {
      NamesMatchIff(lm.name, tms[0].name);
      if !(NamesMatch(lm.name, tms[0].name) && TypesMatch(local, lm.typ, targ, tms[0].typ, false, level - 1) == Yes) {
        OneFound(local, lm, targ, tms[1..], level);
        var j :| 0 <= j < |tms[1..]| && SameName(lm.name, tms[1..][j].name) &&
          TypesMatch(local, lm.typ, targ, tms[1..][j].typ, false, level - 1) == Yes;
        assert tms[1..][j] == tms[j + 1];
      }
    }
  }

  ghost predicate ParamsAgree(
      local: seq<Type>, ps: seq<Param>, targ: seq<Type>, tps: seq<Param>, behind: bool, level: nat)
    requires ValidBtf(local) && ValidBtf(targ) && ParamsIn(local, ps) && ParamsIn(targ, tps) && |ps| == |tps|
  {
    forall i :: 0 <= i < |ps| ==> TypesMatch(local, ps[i].typ, targ, tps[i].typ, behind, level) == Yes
  }

  lemma {:induction false} AllAgree(
      local: seq<Type>, ps: seq<Param>, targ: seq<Type>, tps: seq<Param>, behind: bool, level: nat)
    requires ValidBtf(local) && ValidBtf(targ) && ParamsIn(local, ps) && ParamsIn(targ, tps) && |ps| == |tps| && level > 0
    requires ParamsMatch(local, ps, targ, tps, behind, level) == Yes
    ensures ParamsAgree(local, ps, targ, tps, behind, level - 1)
    decreases |ps|
  {
    hide ValidBtf;
    hide TypesMatch;
    if ps != [] {
      AllAgree(local, ps[1..], targ, tps[1..], behind, level);
      assert forall i :: 0 < i < |ps| ==> ps[i] == ps[1..][i - 1] && tps[i] == tps[1..][i - 1];
    }
  }

  // ---------- types match themselves ----------

  /** No floating-point type, function, variable, section or declaration tag, and no modifiers in circles. */
  ghost predicate Ordinary(types: seq<Type>)
    requires ValidBtf(types)
  {
    forall i :: 0 <= i < |types| ==>
      && !types[i].Other? && (types[i].Leaf? ==> types[i].kind != Float)
      && !types[Skip(types, i)].Mod? && !types[Skip(types, i)].Typedef?
  }

  /** An ordinary type matches itself, unless the bounds of the recursion are exceeded. */
  lemma {:induction false} MatchesItself(types: seq<Type>, i: nat, behind: bool, level: nat)
    requires ValidBtf(types) && Ordinary(types) && i < |types|
    ensures TypesMatch(types, i, types, i, behind, level) != No
    decreases level, 4
  {
    if level > 0 {
      RecurItself(types, i, behind, MAX_MATCH_DEPTH, level);
    }
  }

  lemma {:induction false} RecurItself(types: seq<Type>, i: nat, behind: bool, depth: nat, level: nat)
    requires ValidBtf(types) && Ordinary(types) && i < |types| && level > 0
    ensures Recur(types, i, types, i, behind, depth, level) != No
    decreases level, 3, depth, 1
  {
    if depth > 0 {
      hide ValidBtf;
      hide Compare;
      hide Decide;
      CompareItself(types, Skip(types, i), behind, depth, level);
    }
  }

  lemma {:induction false} CompareItself(types: seq<Type>, s: nat, behind: bool, depth: nat, level: nat)
    requires ValidBtf(types) && Ordinary(types) && s < |types| && depth > 0 && level > 0
    requires !types[s].Mod? && !types[s].Typedef?
    ensures Compare(types, s, types, s, behind, depth, level) != No
    decreases level, 3, depth, 0
  {
    var t := types[s];
    TypeRefsIn(types, s);
    DecidesItself(t, behind);
    hide ValidBtf;
    hide Ordinary;
    hide Decide;
    hide Recur;
    hide MembersMatch;
    hide ParamsMatch;
    match Decide(t, t, behind)
    case Members => MembersItself(types, t.members, t.members, level);
    case Target => RecurItself(types, t.ref, true, depth - 1, level);
    case Element => RecurItself(types, t.elem, behind, depth - 1, level);
    case Prototype =>
      ParamsItself(types, t.params, behind, level);
      RecurItself(types, t.ret, behind, depth - 1, level);
    case _ =>
  }

  lemma DecidesItself(t: Type, behind: bool)
    requires !t.Other? && !t.Mod? && !t.Typedef? && (t.Leaf? ==> t.kind != Float)
    ensures Decide(t, t, behind) != Done(No) && Decide(t, t, behind) != Done(Error)
  {
    if IsEnum(t) {
      SameEnumerators(t, t);
    }
    hide EssentialLen;
    hide EnumsMatch;
    if t.Leaf? {
      match t.kind
      case Int => case Float => case Enum => case Enum64 =>
    }
  }

  lemma {:induction false} MembersItself(types: seq<Type>, ms: seq<Member>, all: seq<Member>, level: nat)
    requires ValidBtf(types) && Ordinary(types) && MembersIn(types, ms) && MembersIn(types, all) && level > 0
    requires forall m :: m in ms ==> m in all
    ensures MembersMatch(types, ms, types, all, level) != No
    decreases level, 2, |ms|
  {
    hide ValidBtf;
    hide Ordinary;
    hide MemberMatch;
    if ms != [] {
      MemberItself(types, ms[0], all, level);
      MembersItself(types, ms[1..], all, level);
    }
  }

  lemma {:induction false} MemberItself(types: seq<Type>, m: Member, all: seq<Member>, level: nat)
    requires ValidBtf(types) && Ordinary(types) && MembersIn(types, all) && m.typ < |types| && m in all && level > 0
    ensures MemberMatch(types, m, types, all, level) != No
    decreases level, 1, |all|
  {
    hide ValidBtf;
    hide Ordinary;
    hide TypesMatch;
    if m == all[0] {
      MatchesItself(types, m.typ, false, level - 1);
    } else {
      MemberItself(types, m, all[1..], level);
    }
  }

  lemma {:induction false} ParamsItself(types: seq<Type>, ps: seq<Param>, behind: bool, level: nat)
    requires ValidBtf(types) && Ordinary(types) && ParamsIn(types, ps) && level > 0
    ensures ParamsMatch(types, ps, types, ps, behind, level) != No
    decreases level, 2, |ps|
  {
    hide ValidBtf;
    hide Ordinary;
    hide TypesMatch;
    if ps != [] {
      MatchesItself(types, ps[0].typ, behind, level - 1);
      ParamsItself(types, ps[1..], behind, level);
    }
  }

  /** Kinds that differ and match all the same: a composite and its forward declaration behind a pointer, and
      enumerations of 32 and 64 bits. */
  lemma OtherKindsMatch(l: Type, t: Type)
    requires SameName(NameOf(l), NameOf(t))
    ensures l.Fwd? && t.Composite? && l.isUnion == t.isUnion ==> Decide(l, t, true) == Done(Yes)
    ensures l.Composite? && t.Fwd? && l.isUnion == t.isUnion ==> Decide(l, t, true) == Done(Yes)
    ensures l.Leaf? && t.Leaf? && l.kind == Enum && t.kind == Enum64 && l.size == t.size && l.values == t.values ==>
      Decide(l, t, true) == Done(Yes) && Decide(l, t, false) == Done(Yes) && Decide(t, l, false) == Done(Yes)
  {
    hide SameName;
    hide NamesMatch;
    NamesMatchIff(NameOf(l), NameOf(t));
    SameNameSymmetric(NameOf(l), NameOf(t));
    NamesMatchIff(NameOf(t), NameOf(l));
    hide EnumsMatch;
    if IsEnum(l) && IsEnum(t) && l.size == t.size && l.values == t.values {
      SameEnumerators(l, t);
      SameEnumerators(t, l);
    }
  }

  lemma SameEnumerators(l: Type, t: Type)
    requires IsEnum(l) && IsEnum(t) && l.size == t.size && l.values == t.values
    ensures EnumsMatch(l, t)
  {
    forall i | 0 <= i < |l.values|
      ensures HasEnumerator(t.values, l.values[i].0)
    {
      assert NamesMatch(l.values[i].0, t.values[i].0);
    }
  }

  lemma SameNameSymmetric(a: string, b: string)
    requires SameName(a, b)
    ensures SameName(b, a)
  {
  }

  /** The value of an enumeration relocation is that of the first enumerator with the same name, if there is one. */
  lemma {:induction false} FirstEnumerator(values: seq<(string, int)>, name: string, j: nat)
    requires j < |values| && SameName(name, values[j].0)
    requires forall i :: 0 <= i < j ==> !SameName(name, values[i].0)
    ensures Named(values, name) == Some(values[j].1)
  {
    if j > 0 {
      assert forall i :: 0 <= i < j - 1 ==> values[1..][i] == values[i + 1];
      FirstEnumerator(values[1..], name, j - 1);
    }
  }

  lemma {:induction false} NoEnumerator(values: seq<(string, int)>, name: string)
    requires forall i :: 0 <= i < |values| ==> !SameName(name, values[i].0)
    ensures Named(values, name) == None
  {
    if values != [] {
      assert forall i :: 0 <= i < |values| - 1 ==> values[1..][i] == values[i + 1];
      NoEnumerator(values[1..], name);
    }
  }

  // ---------- compatible types ----------

  /** Types that are compatible have, behind modifiers and typedefs, the same kind, up to the width of an
      enumeration; integers start at bit 0 of their storage, and prototypes have as many parameters. */
  lemma CompatRequires(local: seq<Type>, lid: nat, targ: seq<Type>, tid: nat, level: nat)
    requires ValidBtf(local) && ValidBtf(targ) && lid < |local| && tid < |targ|
    requires Compat(local, lid, targ, tid, level) == Yes
    ensures
      var l, t := local[Skip(local, lid)], targ[Skip(targ, tid)];
      && !l.Other? && !l.Mod? && !l.Typedef? && (l.Void? <==> t.Void?) && (l.Fwd? <==> t.Fwd?)
      && (l.Leaf? && l.kind == Int ==> t.Leaf? && t.kind == Int && l.bitOffset == 0 && t.bitOffset == 0)
      && (l.Leaf? && l.kind != Int ==> IsEnum(l) && IsEnum(t))
      && (l.Composite? <==> t.Composite?) && (l.Composite? ==> l.isUnion == t.isUnion)
      && (l.Ptr? <==> t.Ptr?) && (l.Array? <==> t.Array?) && (l.FuncProto? <==> t.FuncProto?)
      && (l.FuncProto? ==> |l.params| == |t.params|)
  {
    hide ValidBtf;
    hide Skip;
    var s, e := Skip(local, lid), Skip(targ, tid);
    assert CompatRecur(local, lid, targ, tid, MAX_MATCH_DEPTH, level) == Yes;
    assert CompatCompare(local, s, targ, e, MAX_MATCH_DEPTH, level) == Yes;
    assert DecideCompat(local[s], targ[e]) != Done(No);
    if local[s].Leaf? {
      match local[s].kind
      case Int => case Float => case Enum => case Enum64 =>
    }
  }

  /** An ordinary table whose integers start at bit 0 is compatible with itself. */
  lemma {:induction false} CompatItself(types: seq<Type>, i: nat, level: nat)
    requires ValidBtf(types) && Ordinary(types) && i < |types|
    requires forall k :: 0 <= k < |types| && types[k].Leaf? ==> types[k].bitOffset == 0
    ensures Compat(types, i, types, i, level) != No
    decreases level, 4
  {
    CompatRecurItself(types, i, MAX_MATCH_DEPTH, level);
  }

  lemma {:induction false} CompatRecurItself(types: seq<Type>, i: nat, depth: nat, level: nat)
    requires ValidBtf(types) && Ordinary(types) && i < |types|
    requires forall k :: 0 <= k < |types| && types[k].Leaf? ==> types[k].bitOffset == 0
    ensures CompatRecur(types, i, types, i, depth, level) != No
    decreases level, 3, depth, 1
  {
    if depth > 0 {
      hide ValidBtf;
      hide CompatCompare;
      CompatCompareItself(types, Skip(types, i), depth, level);
    }
  }

  lemma {:induction false} CompatCompareItself(types: seq<Type>, s: nat, depth: nat, level: nat)
    requires ValidBtf(types) && Ordinary(types) && s < |types| && depth > 0
    requires !types[s].Mod? && !types[s].Typedef?
    requires forall k :: 0 <= k < |types| && types[k].Leaf? ==> types[k].bitOffset == 0
    ensures CompatCompare(types, s, types, s, depth, level) != No
    decreases level, 3, depth, 0
  {
    var t := types[s];
    TypeRefsIn(types, s);
    CompatDecidesItself(t);
    hide ValidBtf;
    hide Ordinary;
    hide DecideCompat;
    hide CompatRecur;
    hide CompatParams;
    match DecideCompat(t, t)
    case Target => CompatRecurItself(types, t.ref, depth - 1, level);
    case Element => CompatRecurItself(types, t.elem, depth - 1, level);
    case Prototype =>
      CompatParamsItself(types, t.params, level);
      CompatRecurItself(types, Skip(types, t.ret), depth - 1, level);
    case _ =>
  }

  lemma CompatDecidesItself(t: Type)
    requires !t.Other? && !t.Mod? && !t.Typedef? && (t.Leaf? ==> t.kind != Float && t.bitOffset == 0)
    ensures DecideCompat(t, t) != Done(No) && DecideCompat(t, t) != Done(Error)
  {
    if t.Leaf? {
      match t.kind
      case Int => case Float => case Enum => case Enum64 =>
    }
  }

  lemma {:induction false} CompatParamsItself(types: seq<Type>, ps: seq<Param>, level: nat)
    requires ValidBtf(types) && Ordinary(types) && ParamsIn(types, ps)
    requires forall k :: 0 <= k < |types| && types[k].Leaf? ==> types[k].bitOffset == 0
    ensures CompatParams(types, ps, types, ps, level) != No
    decreases level, 2, |ps|
  {
    hide ValidBtf;
    hide Ordinary;
    hide Skip;
    hide Compat;
    if ps != [] && level > 0 {
      CompatItself(types, Skip(types, ps[0].typ), level - 1);
      CompatParamsItself(types, ps[1..], level);
    }
  }
}

/**
  The structure generated for a data section: padding is emitted so that a C
  compiler puts every exposed variable at the offset recorded for it.
 */
module Skeleton {
  import opened Wrappers
  import opened Bytes

  /** A variable of a data section, with the alignment that BTF gives for its type. */
  datatype Var = Var(isStatic: bool, offset: int, size: nat, align: int)

  /** A member of the generated structure: padding, or the variable with this index. */
  datatype Decl = Pad(len: int) | Field(i: nat)

  datatype Error = Overlap | NoAlignment

  function RoundUp(x: nat, a: nat): nat
    requires a > 0
  {
    (x + a - 1) / a * a
  }

  /** Alignments are capped at 4, so that enough padding is emitted for 32-bit hosts. */
  function Cap(align: int): int { if align > 4 then 4 else align }

  /** The members generated from variable `i` on, with `off` bytes laid out so far. */
  function Generate(vars: seq<Var>, i: nat, off: nat): Result<seq<Decl>, Error>
    requires i <= |vars|
    decreases |vars| - i
  {
    if i == |vars| then Ok([])
    else if vars[i].isStatic then Generate(vars, i + 1, off)
    else if off > vars[i].offset then Err(Overlap)
    else if vars[i].align <= 0 then Err(NoAlignment)
    else
      var pad := if RoundUp(off, Cap(vars[i].align)) != vars[i].offset then [Pad(vars[i].offset - off)] else [];
      After(pad + [Field(i)], Generate(vars, i + 1, vars[i].offset + vars[i].size))
  }

  function After(decls: seq<Decl>, r: Result<seq<Decl>, Error>): Result<seq<Decl>, Error> {
    if r.Ok? then Ok(decls + r.value) else r
  }

  lemma AfterAfter(a: seq<Decl>, b: seq<Decl>, r: Result<seq<Decl>, Error>)
    ensures After(a, After(b, r)) == After(a + b, r) && After([], r) == r
  {
    if r.Ok? {
      assert a + (b + r.value) == (a + b) + r.value && [] + r.value == r.value;
    }
  }

  /** The loop of codegen_datasec_def. */
  method CodegenDatasec(vars: seq<Var>) returns (r: Result<seq<Decl>, Error>)
    ensures r == Generate(vars, 0, 0)
  {
    var decls, off: nat := [], 0;
    AfterAfter([], [], Generate(vars, 0, 0));
    for i := 0 to |vars|
      invariant Generate(vars, 0, 0) == After(decls, Generate(vars, i, off))
    {
      ghost var was := decls;
      if !vars[i].isStatic {
        if off > vars[i].offset {
          return Err(Overlap);
        }
        var align := vars[i].align;
        if align <= 0 {
          return Err(NoAlignment);
        }
        if align > 4 {
          align := 4;
        }
        var alignOff := RoundUp(off, align);
        if alignOff != vars[i].offset {
          decls := decls + [Pad(vars[i].offset - off)];
        }
        decls := decls + [Field(i)];
        ghost var more := (if alignOff != vars[i].offset then [Pad(vars[i].offset - off)] else []) + [Field(i)];
        assert decls == was + more;
        off := vars[i].offset + vars[i].size;
        AfterAfter(was, more, Generate(vars, i + 1, off));
      }
    }
    assert decls + [] == decls;
    return Ok(decls);
  }

  /** The exposed variables from `i` on have an alignment, start at `off` or later and do not overlap. */
  ghost predicate InOrder(vars: seq<Var>, i: nat, off: nat) {
    && (forall j :: i <= j < |vars| && !vars[j].isStatic ==> off <= vars[j].offset && vars[j].align > 0)
    && (forall j, k :: i <= j < k < |vars| && !vars[j].isStatic && !vars[k].isStatic ==>
          vars[j].offset + vars[j].size <= vars[k].offset)
  }

  /** Generation succeeds if and only if the exposed variables are in order and none overlaps another. */
  lemma {:induction false} GeneratesIff(vars: seq<Var>, i: nat, off: nat)
    requires i <= |vars|
    ensures Generate(vars, i, off).Ok? <==> InOrder(vars, i, off)
    decreases |vars| - i
  {
    if i < |vars| {
      if vars[i].isStatic {
        GeneratesIff(vars, i + 1, off);
      } else if off <= vars[i].offset && vars[i].align > 0 {
        GeneratesIff(vars, i + 1, vars[i].offset + vars[i].size);
      }
    }
  }

  // ---------- what a C compiler makes of it ----------

  /** Host alignments: at least the capped alignment of the variable. */
  ghost predicate HostAligns(vars: seq<Var>, host: seq<nat>) {
    |host| == |vars| && forall i :: 0 <= i < |vars| ==> host[i] > 0 && host[i] >= Cap(vars[i].align)
  }

  /** Laid out in order from `off` on, each variable is rounded up to its alignment on the host:
      every variable lands at its recorded offset. */
  ghost predicate Faithful(vars: seq<Var>, host: seq<nat>, decls: seq<Decl>, off: int)
    requires HostAligns(vars, host)
    decreases |decls|
  {
    decls == [] ||
    match decls[0]
    case Pad(n) => Faithful(vars, host, decls[1..], off + n)
    case Field(i) =>
      && i < |vars| && off >= 0
      && RoundUp(off, host[i]) == vars[i].offset
      && Faithful(vars, host, decls[1..], vars[i].offset + vars[i].size)
  }

  /** Every exposed variable from `i` on is at a multiple of its alignment on the host. */
  ghost predicate Aligned(vars: seq<Var>, host: seq<nat>, i: nat)
    requires HostAligns(vars, host)
  {
    forall j :: i <= j < |vars| && !vars[j].isStatic ==> vars[j].offset % host[j] == 0
  }

  lemma RoundUpIs(x: nat, a: nat)
    requires a > 0
    ensures x <= RoundUp(x, a) < x + a && RoundUp(x, a) % a == 0
  {
    var y := x + a - 1;
    var q := y / a;
    assert y == q * a + y % a;
    DivMod(q * a, a, q, 0);
  }

  /** The only multiple of `a` in reach. */
  lemma RoundUpUnique(x: nat, a: nat, y: int)
    requires a > 0 && x <= y < x + a && y % a == 0
    ensures RoundUp(x, a) == y
  {
    RoundUpIs(x, a);
    var q, q' := y / a, RoundUp(x, a) / a;
    assert y == q * a && RoundUp(x, a) == q' * a;
    if q < q' {
      MulAtLeast(q' - q, a);
      MulDist(q', -q, a);
    } else if q' < q {
      MulAtLeast(q - q', a);
      MulDist(q, -q', a);
    }
  }

  /** One variable, padded or not, lands at its offset if and only if that is aligned on the host. */
  lemma VariableLands(off: nat, need: int, align: nat, host: nat)
    requires align > 0 && host >= align && off <= need
    ensures need % host == 0 <==> RoundUp(if RoundUp(off, align) != need then need else off, host) == need
  {
    RoundUpIs(off, align);
    RoundUpIs(need, host);
    RoundUpIs(off, host);
    if need % host == 0 {
      RoundUpUnique(need, host, need);
      if RoundUp(off, align) == need {
        RoundUpUnique(off, host, need);
      }
    }
  }

  /** The generated layout is faithful if and only if every exposed variable is aligned on the host. */
  lemma {:induction false} FaithfulIffAligned(vars: seq<Var>, host: seq<nat>, i: nat, off: nat)
    requires HostAligns(vars, host) && i <= |vars| && Generate(vars, i, off).Ok?
    ensures Faithful(vars, host, Generate(vars, i, off).value, off) <==> Aligned(vars, host, i)
    decreases |vars| - i
  {
    if i < |vars| {
      if vars[i].isStatic {
        FaithfulIffAligned(vars, host, i + 1, off);
      } else {
        var v := vars[i];
        FaithfulIffAligned(vars, host, i + 1, v.offset + v.size);
        VariableLands(off, v.offset, Cap(v.align), host[i]);
        var rest := Generate(vars, i + 1, v.offset + v.size).value;
        var all := Generate(vars, i, off).value;
        if RoundUp(off, Cap(v.align)) != v.offset {
          assert all == [Pad(v.offset - off)] + ([Field(i)] + rest);
          assert all[1..] == [Field(i)] + rest && ([Field(i)] + rest)[1..] == rest;
        } else {
          assert all == [Field(i)] + rest && all[1..] == rest;
        }
      }
    }
  }

  /** No padding is empty, if every exposed variable is a multiple of its capped alignment. */
  lemma {:induction false} PadsArePositive(vars: seq<Var>, i: nat, off: nat, k: nat)
    requires i <= |vars| && Generate(vars, i, off).Ok?
    requires forall j :: i <= j < |vars| && !vars[j].isStatic && vars[j].align > 0 ==>
      vars[j].offset % Cap(vars[j].align) == 0
    requires k < |Generate(vars, i, off).value| && Generate(vars, i, off).value[k].Pad?
    ensures Generate(vars, i, off).value[k].len > 0
    decreases |vars| - i
  {
    if vars[i].isStatic {
      PadsArePositive(vars, i + 1, off, k);
    } else {
      var v := vars[i];
      var pad := RoundUp(off, Cap(v.align)) != v.offset;
      if pad && k == 0 {
        if v.offset == off {
          RoundUpUnique(off, Cap(v.align), v.offset);
        }
      } else {
        PadsArePositive(vars, i + 1, v.offset + v.size, if pad then k - 2 else k - 1);
      }
    }
  }

  // ---------- what is emitted ----------

  /** The variables among the generated members, in order. */
  function Fields(decls: seq<Decl>): seq<nat> {
    if decls == [] then [] else (if decls[0].Field? then [decls[0].i] else []) + Fields(decls[1..])
  }

  /** The variables from `i` on that are not static. */
  function Exposed(vars: seq<Var>, i: nat): seq<nat>
    requires i <= |vars|
    decreases |vars| - i
  {
    if i == |vars| then [] else (if vars[i].isStatic then [] else [i]) + Exposed(vars, i + 1)
  }

  /** Every variable that is not static is emitted, once and in order, and no other. */
  lemma {:induction false} FieldsAreExposed(vars: seq<Var>, i: nat, off: nat)
    requires i <= |vars| && Generate(vars, i, off).Ok?
    ensures Fields(Generate(vars, i, off).value) == Exposed(vars, i)
    decreases |vars| - i
  {
    if i < |vars| {
      var v := vars[i];
      if v.isStatic {
        FieldsAreExposed(vars, i + 1, off);
      } else {
        FieldsAreExposed(vars, i + 1, v.offset + v.size);
        var rest := Generate(vars, i + 1, v.offset + v.size).value;
        if RoundUp(off, Cap(v.align)) != v.offset {
          FieldsOfPad(v.offset - off, [Field(i)] + rest);
          assert [Pad(v.offset - off)] + [Field(i)] + rest == [Pad(v.offset - off)] + ([Field(i)] + rest);
        }
        FieldsOfField(i, rest);
        assert [] + [Field(i)] + rest == [Field(i)] + rest;
      }
    }
  }

  lemma FieldsOfPad(n: int, rest: seq<Decl>)
    ensures Fields([Pad(n)] + rest) == Fields(rest)
  {
    assert ([Pad(n)] + rest)[1..] == rest;
  }

  lemma FieldsOfField(i: nat, rest: seq<Decl>)
    ensures Fields([Field(i)] + rest) == [i] + Fields(rest)
  {
    assert ([Field(i)] + rest)[1..] == rest;
  }

  /** Where the last exposed variable before `i` ends. */
  function EndBefore(vars: seq<Var>, i: nat): int
    requires i <= |vars|
  {
    if i == 0 then 0
    else if vars[i - 1].isStatic then EndBefore(vars, i - 1)
    else vars[i - 1].offset + vars[i - 1].size
  }

  /** Variable `j` is where an alignment of at most 4 puts it without padding. */
  predicate FitsWithoutPadding(vars: seq<Var>, j: nat)
    requires j < |vars| && vars[j].align > 0
  {
    var a := if vars[j].align < 4 then vars[j].align else 4;
    vars[j].offset % a == 0 && vars[j].offset - a < EndBefore(vars, j) <= vars[j].offset
  }

  lemma RoundsToIff(x: nat, a: nat, y: int)
    requires a > 0
    ensures RoundUp(x, a) == y <==> y % a == 0 && y - a < x <= y
  {
    RoundUpIs(x, a);
    if y % a == 0 && y - a < x <= y {
      RoundUpUnique(x, a, y);
    }
  }

  /** Padding is emitted exactly where it is needed, from the end of the last variable to the next. */
  lemma {:induction false} PadsWhereNeeded(vars: seq<Var>, i: nat, off: nat, p: nat)
    requires i <= |vars| && off == EndBefore(vars, i) && Generate(vars, i, off).Ok?
    requires p < |Generate(vars, i, off).value| && Generate(vars, i, off).value[p].Field?
    ensures
      var decls := Generate(vars, i, off).value;
      var j := decls[p].i;
      && i <= j < |vars| && vars[j].align > 0
      && (p > 0 && decls[p - 1].Pad? <==> !FitsWithoutPadding(vars, j))
      && (p > 0 && decls[p - 1].Pad? ==> decls[p - 1].len == vars[j].offset - EndBefore(vars, j))
    decreases |vars| - i
  {
    var v := vars[i];
    if v.isStatic {
      PadsWhereNeeded(vars, i + 1, off, p);
    } else {
      var pad := RoundUp(off, Cap(v.align)) != v.offset;
      RoundsToIff(off, Cap(v.align), v.offset);
      var first := if pad then 1 else 0;
      var decls, rest := Generate(vars, i, off).value, Generate(vars, i + 1, v.offset + v.size).value;
      assert decls[first + 1..] == rest;
      if p > first {
        PadsWhereNeeded(vars, i + 1, v.offset + v.size, p - first - 1);
      }
    }
  }

  /** An error names what is wrong with the first exposed variable that has something wrong. */
  lemma {:induction false} ErrorNamesFirst(vars: seq<Var>, i: nat, off: nat) returns (j: nat)
    requires i <= |vars| && off == EndBefore(vars, i) && Generate(vars, i, off).Err?
    ensures i <= j < |vars| && !vars[j].isStatic
    ensures Generate(vars, i, off).error == if vars[j].offset < EndBefore(vars, j) then Overlap else NoAlignment
    ensures vars[j].offset < EndBefore(vars, j) || vars[j].align <= 0
    ensures forall k :: i <= k < j && !vars[k].isStatic ==> EndBefore(vars, k) <= vars[k].offset && vars[k].align > 0
    decreases |vars| - i
  {
    var v := vars[i];
    if v.isStatic {
      j := ErrorNamesFirst(vars, i + 1, off);
    } else if off > v.offset || v.align <= 0 {
      j := i;
    } else {
      j := ErrorNamesFirst(vars, i + 1, v.offset + v.size);
    }
  }
}

/**
  Line records of a program compiled to machine code: splitting them by function
  and looking up the record of an address.
 */
module LineInfo {
  import opened Wrappers
  import opened Bytes

  type u32 = x: int | 0 <= x < 0x1_0000_0000

  /** The sanity check on the last record of a function, in 64-bit arithmetic. */
  predicate Fits(last: u64, start: u64, len: u32) { (last - start + 1) % TWO64 <= len }

  /** The records of function `f` reach from `starts[f]` to the start of the next function, or to the end. */
  function End(jited: seq<u64>, starts: seq<nat>, f: nat): nat
    requires f < |starts|
  {
    if f + 1 < |starts| then starts[f + 1] else |jited|
  }

  /** Function `f` of a split: it starts at its symbol; if it is not the last one, its other records
      increase, none of them is the symbol of the next function, and the last one is inside it. */
  ghost predicate Part(jited: seq<u64>, ksym: seq<u64>, klen: seq<u32>, starts: seq<nat>, f: nat)
    requires f < |starts| <= |ksym| == |klen|
  {
    var end := End(jited, starts, f);
    && starts[f] < end <= |jited|
    && jited[starts[f]] == ksym[f]
    && (f + 1 < |starts| ==>
          && (forall i :: starts[f] < i < end ==> jited[i - 1] < jited[i] && jited[i] != ksym[f + 1])
          && Fits(jited[end - 1], ksym[f], klen[f]))
  }

  /** `starts` splits the records among the functions. */
  ghost predicate Splits(jited: seq<u64>, ksym: seq<u64>, klen: seq<u32>, starts: seq<nat>)
    requires |ksym| == |klen|
  {
    && |starts| == |ksym| > 0 && starts[0] == 0
    && forall f :: 0 <= f < |starts| ==> Part(jited, ksym, klen, starts, f)
  }

  /** The search for the next function symbol, from record `i` on, with the functions in `starts` found. */
  function Search(jited: seq<u64>, ksym: seq<u64>, klen: seq<u32>, i: nat, starts: seq<nat>): Option<seq<nat>>
    requires |ksym| == |klen| && 1 <= i <= |jited| && 1 <= |starts| <= |ksym|
    decreases |jited| - i
  {
    var f := |starts|;
    if f == |ksym| then Some(starts)
    else if i == |jited| then None
    else if ksym[f] == jited[i] then
      if Fits(jited[i - 1], ksym[f - 1], klen[f - 1]) then Search(jited, ksym, klen, i + 1, starts + [i]) else None
    else if jited[i] <= jited[i - 1] then None
    else Search(jited, ksym, klen, i + 1, starts)
  }

  class ProgLinfo {
    const jited: seq<u64>
    var funcIdx: seq<nat>
    var nrPerFunc: seq<nat>

    constructor (jited: seq<u64>)
      ensures this.jited == jited && funcIdx == [] && nrPerFunc == []
    {
      this.jited, funcIdx, nrPerFunc := jited, [], [];
    }

    /** dissect_jited_func */
    method Dissect(ksym: seq<u64>, klen: seq<u32>) returns (ok: bool)
      requires |jited| > 0 && |ksym| == |klen| > 0
      modifies this
      ensures ok <==> jited[0] == ksym[0] && Search(jited, ksym, klen, 1, [0]).Some?
      ensures ok ==> funcIdx == Search(jited, ksym, klen, 1, [0]).value && |nrPerFunc| == |funcIdx|
      ensures ok ==> forall f :: 0 <= f < |funcIdx| ==> funcIdx[f] + nrPerFunc[f] == End(jited, funcIdx, f)
    {
      if ksym[0] != jited[0] {
        return false;
      }
      funcIdx, nrPerFunc := [0], [];
      var prev, i, f := 0, 1, 1;
      while i < |jited| && f < |ksym|
        invariant 1 <= i <= |jited| && 1 <= f <= |ksym| && |funcIdx| == f == |nrPerFunc| + 1
        invariant prev == funcIdx[f - 1] < i
        invariant forall g :: 0 <= g < f - 1 ==> funcIdx[g] + nrPerFunc[g] == funcIdx[g + 1]
        invariant Search(jited, ksym, klen, i, funcIdx) == Search(jited, ksym, klen, 1, [0])
        decreases |jited| - i
      {
        var last := jited[i - 1];
        if ksym[f] == jited[i] {
          if (last - ksym[f - 1] + 1) % TWO64 > klen[f - 1] {
            return false;
          }
          funcIdx := funcIdx + [i];
          nrPerFunc := nrPerFunc + [i - prev];
          prev := i;
          f := f + 1;
        } else if jited[i] <= last {
          return false;
        }
        i := i + 1;
      }
      if f != |ksym| {
        return false;
      }
      nrPerFunc := nrPerFunc + [|jited| - prev];
      return true;
    }

    /** bpf_prog_linfo__lfind_addr_func: the index of the record for an address, or none. */
    method FindAddrFunc(addr: u64, func: nat, skip: nat) returns (r: Option<nat>)
      requires |nrPerFunc| == |funcIdx|
      requires forall f :: 0 <= f < |funcIdx| ==> funcIdx[f] + nrPerFunc[f] <= |jited|
      ensures r == None <==> func >= |funcIdx| || skip >= nrPerFunc[func] || addr < jited[funcIdx[func] + skip]
      ensures r.Some? ==> ScanStops(jited, addr, funcIdx[func] + skip, funcIdx[func] + nrPerFunc[func], r.value)
    {
      if func >= |funcIdx| {
        return None;
      }
      var nr := nrPerFunc[func];
      if skip >= nr {
        return None;
      }
      var start := funcIdx[func] + skip;
      if addr < jited[start] {
        return None;
      }
      nr := nr - skip;
      var i := 0;
      while i < nr
        invariant 0 <= i <= nr
        invariant forall j :: start <= j < start + i ==> jited[j] <= addr
      {
        if addr < jited[start + i] {
          break;
        }
        i := i + 1;
      }
      return Some(start + i - 1);
    }
  }

  /** `r` is the record before the first one beyond `addr`, scanning from `start` to `end`. */
  ghost predicate ScanStops(jited: seq<u64>, addr: u64, start: nat, end: nat, r: nat) {
    && start <= r < end <= |jited|
    && (forall j :: start <= j <= r ==> jited[j] <= addr)
    && (r + 1 < end ==> addr < jited[r + 1])
  }

  /** bpf_prog_linfo__lfind: the same scan over the instruction offsets of all records.  On offsets in
      order it returns the greatest record at or below the offset. */
  method FindInsn(offs: seq<u64>, off: u64, skip: nat) returns (r: Option<nat>)
    ensures r == None <==> skip >= |offs| || off < offs[skip]
    ensures r.Some? ==> ScanStops(offs, off, skip, |offs|, r.value)
    ensures r.Some? && Ordered(offs, skip, |offs|) ==> IsGreatest(offs, off, skip, |offs|, r.value)
  {
    var nr := |offs|;
    if skip >= nr {
      return None;
    }
    if off < offs[skip] {
      return None;
    }
    nr := nr - skip;
    var i := 0;
    while i < nr
      invariant 0 <= i <= nr
      invariant forall j :: skip <= j < skip + i ==> offs[j] <= off
    {
      if off < offs[skip + i] {
        break;
      }
      i := i + 1;
    }
    if Ordered(offs, skip, |offs|) {
      OrderedScan(offs, off, skip, |offs|, skip + i - 1);
    }
    return Some(skip + i - 1);
  }

  // ---------- the search finds the split ----------

  /** The functions found so far, with the records seen so far of the last one. */
  ghost predicate Found(jited: seq<u64>, ksym: seq<u64>, klen: seq<u32>, i: nat, starts: seq<nat>)
    requires |ksym| == |klen|
  {
    && 1 <= |starts| <= |ksym| && starts[0] == 0 && starts[|starts| - 1] < i <= |jited|
    && jited[starts[|starts| - 1]] == ksym[|starts| - 1]
    && (forall f :: 0 <= f < |starts| - 1 ==> Part(jited, ksym, klen, starts, f))
    && (|starts| < |ksym| ==>
          forall j :: starts[|starts| - 1] < j < i ==> jited[j - 1] < jited[j] && jited[j] != ksym[|starts|])
  }

  lemma FoundNext(jited: seq<u64>, ksym: seq<u64>, klen: seq<u32>, i: nat, starts: seq<nat>)
    requires |ksym| == |klen| && Found(jited, ksym, klen, i, starts) && |starts| < |ksym| && i < |jited|
    requires jited[i] == ksym[|starts|] && Fits(jited[i - 1], ksym[|starts| - 1], klen[|starts| - 1])
    ensures Found(jited, ksym, klen, i + 1, starts + [i])
  {
    var next := starts + [i];
    forall f | 0 <= f < |next| - 1
      ensures Part(jited, ksym, klen, next, f)
    {
      if f < |starts| - 1 {
        assert Part(jited, ksym, klen, starts, f);
        assert End(jited, next, f) == End(jited, starts, f);
      } else {
        assert End(jited, next, f) == i;
      }
    }
  }

  lemma {:induction false} SearchSplits(jited: seq<u64>, ksym: seq<u64>, klen: seq<u32>, i: nat, starts: seq<nat>)
    requires |ksym| == |klen| && 1 <= i && Found(jited, ksym, klen, i, starts)
    requires Search(jited, ksym, klen, i, starts).Some?
    ensures Splits(jited, ksym, klen, Search(jited, ksym, klen, i, starts).value)
    decreases |jited| - i
  {
    var f := |starts|;
    if f == |ksym| {
      assert Part(jited, ksym, klen, starts, f - 1);
    } else if ksym[f] == jited[i] {
      FoundNext(jited, ksym, klen, i, starts);
      SearchSplits(jited, ksym, klen, i + 1, starts + [i]);
    } else {
      SearchSplits(jited, ksym, klen, i + 1, starts);
    }
  }

  /** A split that begins with the functions found is the result of the search. */
  lemma {:induction false} SplitIsFound(
      jited: seq<u64>, ksym: seq<u64>, klen: seq<u32>, i: nat, starts: seq<nat>, split: seq<nat>)
    requires |ksym| == |klen| && Splits(jited, ksym, klen, split)
    requires 1 <= |starts| <= |split| && starts == split[..|starts|]
    requires starts[|starts| - 1] < i <= End(jited, split, |starts| - 1) && i <= |jited|
    ensures Search(jited, ksym, klen, i, starts) == Some(split)
    decreases |jited| - i
  {
    var f := |starts|;
    assert Part(jited, ksym, klen, split, f - 1);
    if f == |ksym| {
      assert starts == split;
    } else {
      assert Part(jited, ksym, klen, split, f);
      if i == split[f] {
        assert starts + [i] == split[..f + 1];
        SplitIsFound(jited, ksym, klen, i + 1, starts + [i], split);
      } else {
        SplitIsFound(jited, ksym, klen, i + 1, starts, split);
      }
    }
  }

  /** Dissection succeeds with `split` if and only if `split` splits the records. */
  lemma DissectionIsSplit(jited: seq<u64>, ksym: seq<u64>, klen: seq<u32>, split: seq<nat>)
    requires |jited| > 0 && |ksym| == |klen| > 0
    ensures (jited[0] == ksym[0] && Search(jited, ksym, klen, 1, [0]) == Some(split)) <==> Splits(jited, ksym, klen, split)
  {
    if jited[0] == ksym[0] && Search(jited, ksym, klen, 1, [0]) == Some(split) {
      SearchSplits(jited, ksym, klen, 1, [0]);
    }
    if Splits(jited, ksym, klen, split) {
      assert Part(jited, ksym, klen, split, 0);
      SplitIsFound(jited, ksym, klen, 1, [0], split);
    }
  }

  // ---------- what a split is good for ----------

  function Sum(s: seq<nat>): nat { if s == [] then 0 else Sum(s[..|s| - 1]) + s[|s| - 1] }

  /** The counts of a dissection add up to the position of the next function, and to all records in the end. */
  lemma {:induction false} CountsAddUp(jited: seq<u64>, funcIdx: seq<nat>, nrPerFunc: seq<nat>, f: nat)
    requires |nrPerFunc| == |funcIdx| > 0 && funcIdx[0] == 0 && f < |funcIdx|
    requires forall k :: 0 <= k < |funcIdx| ==> funcIdx[k] + nrPerFunc[k] == End(jited, funcIdx, k)
    ensures Sum(nrPerFunc[..f + 1]) == End(jited, funcIdx, f)
  {
    var counts := nrPerFunc[..f + 1];
    assert counts[..f] == nrPerFunc[..f] && counts[f] == nrPerFunc[f];
    if f > 0 {
      CountsAddUp(jited, funcIdx, nrPerFunc, f - 1);
    }
  }

  /** The parts follow each other and cover every record. */
  lemma {:induction false} PartsCover(jited: seq<u64>, ksym: seq<u64>, klen: seq<u32>, split: seq<nat>, i: nat)
    requires |ksym| == |klen| && Splits(jited, ksym, klen, split) && i < |jited|
    ensures exists f :: 0 <= f < |split| && split[f] <= i < End(jited, split, f)
  {
    var f := |split| - 1;
    assert Part(jited, ksym, klen, split, f);
    while i < split[f]
      invariant 0 <= f < |split| && i < End(jited, split, f)
    {
      assert Part(jited, ksym, klen, split, f - 1);
      f := f - 1;
    }
  }

  lemma {:induction false} PartIncreases(
      jited: seq<u64>, ksym: seq<u64>, klen: seq<u32>, split: seq<nat>, f: nat, i: nat, j: nat)
    requires |ksym| == |klen| && Splits(jited, ksym, klen, split) && f + 1 < |split|
    requires split[f] <= i < j < split[f + 1]
    ensures i < j < |jited| && jited[i] < jited[j]
    decreases j - i
  {
    assert Part(jited, ksym, klen, split, f);
    if i + 1 < j {
      PartIncreases(jited, ksym, klen, split, f, i, j - 1);
    }
  }

  /** The check on a last record that is not below the start accepts it if and only if it lies inside the function,
      or the 64-bit difference wraps. */
  lemma FitsIff(last: u64, start: u64, len: u32)
    requires start <= last
    ensures Fits(last, start, len) <==> last < start + len || (start == 0 && last == TWO64 - 1)
  {
  }

  /** The records of a function that is not the last one lie inside it, if and only if the 64-bit
      difference does not wrap: that takes a function at address 0 with a record at the last address. */
  lemma RecordsInside(jited: seq<u64>, ksym: seq<u64>, klen: seq<u32>, split: seq<nat>, f: nat)
    requires |ksym| == |klen| && Splits(jited, ksym, klen, split) && f + 1 < |split|
    ensures split[f] < split[f + 1] <= |jited|
    ensures (forall i :: split[f] <= i < split[f + 1] ==> ksym[f] <= jited[i] < ksym[f] + klen[f])
      <==> !(ksym[f] == 0 && jited[split[f + 1] - 1] == TWO64 - 1)
  {
    assert Part(jited, ksym, klen, split, f);
    var last := split[f + 1] - 1;
    forall i: nat | split[f] <= i <= last
      ensures ksym[f] <= jited[i] <= jited[last]
    {
      if split[f] < i {
        PartIncreases(jited, ksym, klen, split, f, split[f], i);
      }
      if i < last {
        PartIncreases(jited, ksym, klen, split, f, i, last);
      }
    }
  }

  /** Such a split: the second record of the function at address 0 passes, whatever the length is. */
  lemma LastAddressPasses(len: u32)
    ensures
      var jited: seq<u64> := [0, TWO64 - 1, 5];
      Splits(jited, [0, 5], [len, len], [0, 2]) && !(0 <= jited[1] < 0 + len)
  {
    var jited: seq<u64> := [0, TWO64 - 1, 5];
    assert Part(jited, [0, 5], [len, len], [0, 2], 0) && Part(jited, [0, 5], [len, len], [0, 2], 1);
  }

  /** Among the records from `start` to `end`, `r` is the last of those at or below the address, and the greatest of them. */
  ghost predicate IsGreatest(jited: seq<u64>, addr: u64, start: nat, end: nat, r: nat)
    requires end <= |jited|
  {
    start <= r < end && forall j :: start <= j < end ==>
      (jited[j] <= addr <==> j <= r) && (jited[j] <= addr ==> jited[j] <= jited[r])
  }

  ghost predicate Ordered(jited: seq<u64>, start: nat, end: nat)
    requires end <= |jited|
  {
    forall i, j :: start <= i < j < end ==> jited[i] <= jited[j]
  }

  /** On records in order the scan returns the greatest record at or below the address. */
  lemma OrderedScan(jited: seq<u64>, addr: u64, start: nat, end: nat, r: nat)
    requires end <= |jited| && ScanStops(jited, addr, start, end, r) && Ordered(jited, start, end)
    ensures IsGreatest(jited, addr, start, end, r)
  {
  }

  /** In any function but the last, and in the last one if its records are in order, the scan returns
      the greatest record at or below the address. */
  lemma ScanIsGreatest(
      jited: seq<u64>, ksym: seq<u64>, klen: seq<u32>, split: seq<nat>, f: nat, addr: u64, start: nat, r: nat)
    requires |ksym| == |klen| && Splits(jited, ksym, klen, split) && f < |split| && split[f] <= start
    requires ScanStops(jited, addr, start, End(jited, split, f), r)
    requires f + 1 == |split| ==> Ordered(jited, start, |jited|)
    ensures End(jited, split, f) <= |jited| && IsGreatest(jited, addr, start, End(jited, split, f), r)
  {
    var end := End(jited, split, f);
    assert Part(jited, ksym, klen, split, f);
    forall i, j | start <= i < j < end
      ensures jited[i] <= jited[j]
    {
      if f + 1 < |split| {
        PartIncreases(jited, ksym, klen, split, f, i, j);
      }
    }
    OrderedScan(jited, addr, start, end, r);
  }

  /** The scan stops right for an address if and only if no record at or below the address lies behind one beyond it. */
  lemma ScanStopsRightIff(jited: seq<u64>, addr: u64, start: nat, end: nat, r: nat)
    requires end <= |jited| && ScanStops(jited, addr, start, end, r)
    ensures (forall j :: start <= j < end ==> (jited[j] <= addr <==> j <= r)) <==>
            (forall i, j :: start <= i < j < end && addr < jited[i] ==> addr < jited[j])
  {
    if forall i, j :: start <= i < j < end && addr < jited[i] ==> addr < jited[j] {
      assert r + 1 < end ==> forall j :: r + 1 < j < end ==> addr < jited[j];
    }
  }

  /** Records out of order: the last one is at the address, but the scan stops before it. */
  lemma UnorderedScanMisses(a: u64, b: u64, c: u64)
    requires a < b < c
    ensures ScanStops([a, c, b], b, 0, 3, 0) && !IsGreatest([a, c, b], b, 0, 3, 0)
  {
    assert [a, c, b][2] == b;
  }

  /** Whatever follows the start of the last function is accepted: its records are not checked. */
  lemma LastFunctionUnchecked(
      jited: seq<u64>, ksym: seq<u64>, klen: seq<u32>, split: seq<nat>, tail: seq<u64>)
    requires |ksym| == |klen| && Splits(jited, ksym, klen, split)
    ensures
      var last := split[|split| - 1];
      last < |jited| && Splits(jited[..last + 1] + tail, ksym, klen, split)
  {
    var n := |split| - 1;
    var last := split[n];
    assert Part(jited, ksym, klen, split, n);
    var other := jited[..last + 1] + tail;
    forall f | 0 <= f < |split|
      ensures Part(other, ksym, klen, split, f)
    {
      assert Part(jited, ksym, klen, split, f);
      if f < n {
        SplitAscends(jited, ksym, klen, split, f + 1, n);
      }
    }
  }

  lemma {:induction false} SplitAscends(jited: seq<u64>, ksym: seq<u64>, klen: seq<u32>, split: seq<nat>, f: nat, g: nat)
    requires |ksym| == |klen| && Splits(jited, ksym, klen, split) && f <= g < |split|
    ensures split[f] <= split[g]
  {
    if f < g {
      SplitAscends(jited, ksym, klen, split, f, g - 1);
      assert Part(jited, ksym, klen, split, g - 1);
    }
  }
}

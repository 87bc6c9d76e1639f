/**
  Nested symbolization results flattened into one allocation: a header, the
  entries, the symbol records and the strings, linked by absolute pointers.
 */
module FlatBuffer {
  import opened Bytes

  /** A machine word as bytes. */
  function U64Bytes(v: u64): (r: seq<u8>)
    ensures |r| == 8 && Word(r) == v
  {
    Pow2Is64();
    WordOfBytes(v, 8);
    WordBytes(v, 8)
  }

  /** A symbolized address; the strings are their UTF-8 bytes. */
  datatype Sym = Sym(symbol: seq<u8>, start: u64, path: seq<u8>, line: u64, column: u64)

  const WORD := 8
  const RESULT_SIZE := 8
  const ENTRY_SIZE := 16
  const CSYM_SIZE := 40

  function Flat(rs: seq<seq<Sym>>): seq<Sym> {
    if rs == [] then [] else Flat(rs[..|rs| - 1]) + rs[|rs| - 1]
  }

  /** The bytes of the strings of `ss`, terminators included. */
  function StrBytes(ss: seq<Sym>): nat {
    if ss == [] then 0 else StrBytes(ss[..|ss| - 1]) + |ss[|ss| - 1].symbol| + |ss[|ss| - 1].path| + 2
  }

  // The regions, as offsets into the allocation, whose first word holds the size of the rest.
  function EntriesAt(): nat { WORD + RESULT_SIZE }
  function SymsAt(rs: seq<seq<Sym>>): nat { EntriesAt() + ENTRY_SIZE * |rs| }
  function StringsAt(rs: seq<seq<Sym>>): nat { SymsAt(rs) + CSYM_SIZE * |Flat(rs)| }
  function Total(rs: seq<seq<Sym>>): nat { StringsAt(rs) + StrBytes(Flat(rs)) }

  // ---------- reading through the pointers ----------

  function U64At(mem: seq<u8>, off: nat): nat { if off + 8 <= |mem| then Word(mem[off..off + 8]) else 0 }

  /** The bytes before the first NUL. */
  function UpToNul(s: seq<u8>): seq<u8> { if s == [] || s[0] == 0 then [] else [s[0]] + UpToNul(s[1..]) }

  function ReadStr(mem: seq<u8>, base: nat, p: nat): seq<u8> {
    if base <= p <= base + |mem| then UpToNul(mem[p - base..]) else []
  }

  /** The C record at `off`, its strings read through its pointers. */
  datatype CSym = CSym(symbol: seq<u8>, start: nat, path: seq<u8>, line: nat, column: nat)

  function ReadSym(mem: seq<u8>, base: nat, off: nat): CSym {
    CSym(ReadStr(mem, base, U64At(mem, off)), U64At(mem, off + 8), ReadStr(mem, base, U64At(mem, off + 16)),
         U64At(mem, off + 24), U64At(mem, off + 32))
  }

  function ReadSyms(mem: seq<u8>, base: nat, off: nat, n: nat): seq<CSym> {
    seq(n, j requires 0 <= j < n => ReadSym(mem, base, off + CSYM_SIZE * j))
  }

  function ReadEntry(mem: seq<u8>, base: nat, k: nat): seq<CSym> {
    var off := EntriesAt() + ENTRY_SIZE * k;
    var p := U64At(mem, off + 8);
    if p < base then [] else ReadSyms(mem, base, p - base, U64At(mem, off))
  }

  function ReadResult(mem: seq<u8>, base: nat): seq<seq<CSym>> {
    var n := U64At(mem, WORD);
    seq(n, k requires 0 <= k < n => ReadEntry(mem, base, k))
  }

  /** What a C caller sees of a symbol: strings end at their first NUL. */
  function Seen(s: Sym): CSym { CSym(UpToNul(s.symbol), s.start, UpToNul(s.path), s.line, s.column) }

  function SeenEntry(e: seq<Sym>): seq<CSym> { seq(|e|, j requires 0 <= j < |e| => Seen(e[j])) }

  function SeenAll(rs: seq<seq<Sym>>): seq<seq<CSym>> {
    seq(|rs|, k requires 0 <= k < |rs| => SeenEntry(rs[k]))
  }

  // ---------- writing ----------

  method Put(buf: array<u8>, off: nat, bytes: seq<u8>)
    requires off + |bytes| <= buf.Length
    modifies buf
    ensures buf[..] == Write(old(buf[..]), off, bytes)
  {
    var i := 0;
    while i < |bytes|
      invariant 0 <= i <= |bytes|
      invariant buf[..] == Write(old(buf[..]), off, bytes[..i])
    {
      WriteSnoc(old(buf[..]), off, bytes, i);
      buf[off + i] := bytes[i];
      i := i + 1;
    }
    assert bytes[..i] == bytes;
  }

  method PutU64(buf: array<u8>, off: nat, v: u64)
    requires off + 8 <= buf.Length
    modifies buf
    ensures buf[..] == Write(old(buf[..]), off, U64Bytes(v))
  {
    Put(buf, off, U64Bytes(v));
  }

  lemma WriteAppend(mem: seq<u8>, off: nat, a: seq<u8>, b: seq<u8>)
    requires off + |a| + |b| <= |mem|
    ensures Write(Write(mem, off, a), off + |a|, b) == Write(mem, off, a + b)
  {
  }

  /** The strings of a symbol as they are stored. */
  function Strings(x: Sym): (r: seq<u8>)
    ensures |r| == |x.symbol| + |x.path| + 2
  {
    x.symbol + [0] + (x.path + [0])
  }

  /** The record of a symbol whose strings are stored at address `p`. */
  function Record(p: nat, x: Sym): (r: seq<u8>)
    requires p + |x.symbol| + 1 < TWO64
    ensures |r| == CSYM_SIZE
  {
    (U64Bytes(p) + U64Bytes(x.start)) + (U64Bytes(p + |x.symbol| + 1) + U64Bytes(x.line))
    + U64Bytes(x.column)
  }

  /** make_cstr: the bytes and a terminator. */
  method PutStr(buf: array<u8>, off: nat, s: seq<u8>)
    requires off + |s| + 1 <= buf.Length
    modifies buf
    ensures buf[..] == Write(old(buf[..]), off, s + [0])
  {
    Put(buf, off, s);
    Put(buf, off + |s|, [0]);
    WriteAppend(old(buf[..]), off, s, [0]);
  }

  /** Two words next to each other. */
  method PutPair(buf: array<u8>, off: nat, v: u64, w: u64)
    requires off + 16 <= buf.Length
    modifies buf
    ensures buf[..] == Write(old(buf[..]), off, U64Bytes(v) + U64Bytes(w))
  {
    PutU64(buf, off, v);
    PutU64(buf, off + 8, w);
    WriteAppend(old(buf[..]), off, U64Bytes(v), U64Bytes(w));
  }

  /** The assignments to the five fields of a record. */
  method PutRecord(buf: array<u8>, off: nat, p: nat, x: Sym)
    requires off + CSYM_SIZE <= buf.Length && p + |x.symbol| + 1 < TWO64
    modifies buf
    ensures buf[..] == Write(old(buf[..]), off, Record(p, x))
  {
    ghost var mem := buf[..];
    ghost var head := U64Bytes(p) + U64Bytes(x.start);
    ghost var mid := U64Bytes(p + |x.symbol| + 1) + U64Bytes(x.line);
    ghost var last := U64Bytes(x.column);
    PutPair(buf, off, p, x.start);
    PutPair(buf, off + 16, p + |x.symbol| + 1, x.line);
    PutU64(buf, off + 32, x.column);
    WriteAppend(mem, off, head, mid);
    WriteAppend(mem, off, head + mid, last);
  }

  /** One symbol: its strings at `s`, its record at `off`. */
  method PutSym(buf: array<u8>, base: nat, off: nat, s: nat, x: Sym) returns (end: nat)
    requires off + CSYM_SIZE <= s && s + |x.symbol| + |x.path| + 2 <= buf.Length && base + buf.Length < TWO64
    modifies buf
    ensures buf[..] == Write(Write(old(buf[..]), s, Strings(x)), off, Record(base + s, x))
    ensures end == s + |x.symbol| + |x.path| + 2
  {
    ghost var mem := buf[..];
    PutStr(buf, s, x.symbol);
    PutStr(buf, s + |x.symbol| + 1, x.path);
    WriteAppend(mem, s, x.symbol + [0], x.path + [0]);
    PutRecord(buf, off, base + s, x);
    end := s + |x.symbol| + 1 + |x.path| + 1;
  }

  // ---------- what has been stored ----------

  /** Some bytes at an offset. */
  datatype Seg = Seg(off: nat, bytes: seq<u8>)

  predicate Holds(mem: seq<u8>, a: Seg) { a.off + |a.bytes| <= |mem| && mem[a.off..a.off + |a.bytes|] == a.bytes }

  predicate Apart(a: Seg, b: Seg) { a.off + |a.bytes| <= b.off || b.off + |b.bytes| <= a.off }

  /** Writing one segment keeps what is stored apart from it. */
  lemma WriteHolds(mem: seq<u8>, a: Seg, b: Seg)
    requires b.off + |b.bytes| <= |mem|
    ensures Holds(Write(mem, b.off, b.bytes), b)
    ensures Holds(mem, a) && Apart(a, b) ==> Holds(Write(mem, b.off, b.bytes), a)
  {
    var m := Write(mem, b.off, b.bytes);
    assert m[b.off..b.off + |b.bytes|] == b.bytes;
    if Holds(mem, a) && Apart(a, b) {
      assert m[a.off..a.off + |a.bytes|] == mem[a.off..a.off + |a.bytes|];
    }
  }

  /** The cursors: where entry `k`, and the record and the strings of symbol `g`, go. */
  function EntryOff(k: nat): nat { EntriesAt() + ENTRY_SIZE * k }

  function SymOff(rs: seq<seq<Sym>>, g: nat): nat { SymsAt(rs) + CSYM_SIZE * g }

  function StrOff(rs: seq<seq<Sym>>, g: nat): nat
    requires g <= |Flat(rs)|
  {
    StringsAt(rs) + StrBytes(Flat(rs)[..g])
  }

  /** The number of symbols before entry `k`. */
  function First(rs: seq<seq<Sym>>, k: nat): nat
    requires k <= |rs|
  {
    |Flat(rs[..k])|
  }

  /** Addresses are machine words. */
  ghost predicate Fits(rs: seq<seq<Sym>>, base: nat) { base + Total(rs) < TWO64 }

  lemma EntryFits(rs: seq<seq<Sym>>, k: nat)
    requires k < |rs|
    ensures First(rs, k) + |rs[k]| <= |Flat(rs)| && |rs[k]| <= |Flat(rs)| <= Total(rs)
  {
    FlatSnoc(rs, k);
    FirstBelow(rs, k + 1);
  }

  lemma {:induction false} FirstBelow(rs: seq<seq<Sym>>, k: nat)
    requires k <= |rs|
    ensures First(rs, k) <= |Flat(rs)|
    decreases |rs|
  {
    if k == |rs| {
      assert rs[..k] == rs;
    } else {
      FirstBelow(rs[..|rs| - 1], k);
      assert rs[..|rs| - 1][..k] == rs[..k];
    }
  }

  function StrSeg(rs: seq<seq<Sym>>, g: nat): Seg
    requires g < |Flat(rs)|
  {
    Seg(StrOff(rs, g), Strings(Flat(rs)[g]))
  }

  ghost function SymSeg(rs: seq<seq<Sym>>, base: nat, g: nat): (r: Seg)
    requires Fits(rs, base) && g < |Flat(rs)|
    ensures r.off == SymOff(rs, g) && |r.bytes| == CSYM_SIZE
  {
    StrOffs(rs, g, g + 1);
    Seg(SymOff(rs, g), Record(base + StrOff(rs, g), Flat(rs)[g]))
  }

  ghost function EntrySeg(rs: seq<seq<Sym>>, base: nat, k: nat): (r: Seg)
    requires Fits(rs, base) && k < |rs|
    ensures r.off == EntryOff(k) && |r.bytes| == ENTRY_SIZE
  {
    EntryFits(rs, k);
    Seg(EntryOff(k), U64Bytes(|rs[k]|) + U64Bytes(base + SymOff(rs, First(rs, k))))
  }

  /** The size of the allocation without its first word, and the number of entries. */
  function HeadSeg(rs: seq<seq<Sym>>): (r: Seg)
    requires Total(rs) < TWO64
    ensures r.off == 0 && |r.bytes| == EntriesAt()
  {
    Seg(0, U64Bytes(Total(rs) - WORD) + U64Bytes(|rs|))
  }

  /** The header, the first `k` entries and the first `g` symbols are in place. */
  ghost predicate Stored(mem: seq<u8>, base: nat, rs: seq<seq<Sym>>, k: nat, g: nat)
    requires Fits(rs, base) && k <= |rs| && g <= |Flat(rs)|
  {
    && |mem| == Total(rs) && Holds(mem, HeadSeg(rs))
    && (forall i :: 0 <= i < k ==> Holds(mem, EntrySeg(rs, base, i)))
    && (forall i :: 0 <= i < g ==> Holds(mem, SymSeg(rs, base, i)))
    && (forall i :: 0 <= i < g ==> Holds(mem, StrSeg(rs, i)))
  }

  lemma {:induction false} StrBytesMonotone(ss: seq<Sym>, i: nat, j: nat)
    requires i <= j <= |ss|
    ensures StrBytes(ss[..i]) + (if i < j then |Strings(ss[i])| else 0) <= StrBytes(ss[..j])
    decreases j
  {
    if i < j {
      assert ss[..j][..j - 1] == ss[..j - 1] && ss[..j][j - 1] == ss[j - 1];
      StrBytesMonotone(ss, i, j - 1);
    }
  }

  lemma StrOffs(rs: seq<seq<Sym>>, i: nat, j: nat)
    requires i < j <= |Flat(rs)|
    ensures StrOff(rs, i) + |Strings(Flat(rs)[i])| <= StrOff(rs, j) <= Total(rs)
    ensures j == i + 1 ==> StrOff(rs, j) == StrOff(rs, i) + |Strings(Flat(rs)[i])|
  {
    var ss := Flat(rs);
    StrBytesMonotone(ss, i, j);
    StrBytesMonotone(ss, j, |ss|);
    assert ss[..|ss|] == ss;
    assert ss[..i + 1][..i] == ss[..i] && ss[..i + 1][i] == ss[i];
  }

  /** Writing `b` keeps everything stored, if `b` is apart from it all. */
  lemma StoredApart(mem: seq<u8>, base: nat, rs: seq<seq<Sym>>, k: nat, g: nat, b: Seg)
    requires Fits(rs, base) && k <= |rs| && g <= |Flat(rs)| && Stored(mem, base, rs, k, g)
    requires b.off + |b.bytes| <= |mem| && Apart(HeadSeg(rs), b)
    requires forall i :: 0 <= i < k ==> Apart(EntrySeg(rs, base, i), b)
    requires forall i :: 0 <= i < g ==> Apart(SymSeg(rs, base, i), b)
    requires forall i :: 0 <= i < g ==> Apart(StrSeg(rs, i), b)
    ensures Stored(Write(mem, b.off, b.bytes), base, rs, k, g) && Holds(Write(mem, b.off, b.bytes), b)
  {
    WriteHolds(mem, HeadSeg(rs), b);
    forall i | 0 <= i < k
      ensures Holds(Write(mem, b.off, b.bytes), EntrySeg(rs, base, i))
    {
      WriteHolds(mem, EntrySeg(rs, base, i), b);
    }
    forall i | 0 <= i < g
      ensures Holds(Write(mem, b.off, b.bytes), SymSeg(rs, base, i)) && Holds(Write(mem, b.off, b.bytes), StrSeg(rs, i))
    {
      WriteHolds(mem, SymSeg(rs, base, i), b);
      WriteHolds(mem, StrSeg(rs, i), b);
    }
  }

  /** The next symbol: strings first, then the record. */
  lemma StoreSym(mem: seq<u8>, base: nat, rs: seq<seq<Sym>>, k: nat, g: nat)
    requires Fits(rs, base) && k <= |rs| && g < |Flat(rs)| && Stored(mem, base, rs, k, g)
    ensures StrOff(rs, g) + |Strings(Flat(rs)[g])| <= |mem| && SymOff(rs, g) + CSYM_SIZE <= StrOff(rs, g)
    ensures
      var s, r := StrSeg(rs, g), SymSeg(rs, base, g);
      Stored(Write(Write(mem, s.off, s.bytes), r.off, r.bytes), base, rs, k, g + 1)
  {
    var s, r := StrSeg(rs, g), SymSeg(rs, base, g);
    StrOffs(rs, g, g + 1);
    forall i | 0 <= i < g
      ensures Apart(StrSeg(rs, i), s) && Apart(StrSeg(rs, i), r)
    {
      StrOffs(rs, i, g);
    }
    StoredApart(mem, base, rs, k, g, s);
    var m := Write(mem, s.off, s.bytes);
    StoredApart(m, base, rs, k, g, r);
    WriteHolds(m, s, r);
  }

  /** The next entry. */
  lemma StoreEntry(mem: seq<u8>, base: nat, rs: seq<seq<Sym>>, k: nat, g: nat)
    requires Fits(rs, base) && k < |rs| && g <= |Flat(rs)| && Stored(mem, base, rs, k, g)
    ensures EntryOff(k) + ENTRY_SIZE <= |mem|
    ensures
      var e := EntrySeg(rs, base, k);
      Stored(Write(mem, e.off, e.bytes), base, rs, k + 1, g)
  {
    var e := EntrySeg(rs, base, k);
    StoredApart(mem, base, rs, k, g, e);
  }

  lemma FlatSnoc(rs: seq<seq<Sym>>, k: nat)
    requires k < |rs|
    ensures Flat(rs[..k + 1]) == Flat(rs[..k]) + rs[k]
  {
    assert rs[..k + 1][..k] == rs[..k] && rs[..k + 1][k] == rs[k];
  }

  /** Symbol `j` of entry `k` among all symbols. */
  lemma {:induction false} FlatAt(rs: seq<seq<Sym>>, n: nat, k: nat, j: nat)
    requires k < n <= |rs| && j < |rs[k]|
    ensures First(rs, k) + j < |Flat(rs[..n])| && Flat(rs[..n])[First(rs, k) + j] == rs[k][j]
    decreases n
  {
    FlatSnoc(rs, n - 1);
    if k < n - 1 {
      FlatAt(rs, n - 1, k, j);
    }
  }

  /** convert_symbolizedresults_to_c: three cursors through three regions.  They end where the
      regions end, and the caller reads back the results, strings cut at their first NUL. */
  method Convert(rs: seq<seq<Sym>>, base: nat)
    returns (buf: array<u8>, entryLast: nat, csymLast: nat, cstrLast: nat)
    requires base + Total(rs) < TWO64
    ensures buf.Length == Total(rs) && U64At(buf[..], 0) == Total(rs) - WORD
    ensures entryLast == SymsAt(rs) && csymLast == StringsAt(rs) && cstrLast == buf.Length
    ensures ReadResult(buf[..], base) == SeenAll(rs)
  {
    buf := new u8[Total(rs)];
    PutFront(buf, base, rs);
    entryLast, csymLast, cstrLast := PutEntries(buf, base, rs);
    ReadBack(buf[..], base, rs);
  }

  /** The size in front of the buffer and the number of entries. */
  method PutFront(buf: array<u8>, base: nat, rs: seq<seq<Sym>>)
    requires Fits(rs, base) && buf.Length == Total(rs)
    modifies buf
    ensures Stored(buf[..], base, rs, 0, 0)
  {
    WriteHolds(buf[..], HeadSeg(rs), HeadSeg(rs));
    PutPair(buf, 0, Total(rs) - WORD, |rs|);
  }

  /** The outer loop. */
  method PutEntries(buf: array<u8>, base: nat, rs: seq<seq<Sym>>)
    returns (entryLast: nat, csymLast: nat, cstrLast: nat)
    requires Fits(rs, base) && Stored(buf[..], base, rs, 0, 0)
    modifies buf
    ensures entryLast == SymsAt(rs) && csymLast == StringsAt(rs) && cstrLast == Total(rs)
    ensures Stored(buf[..], base, rs, |rs|, |Flat(rs)|)
  {
    entryLast, csymLast, cstrLast := EntriesAt(), SymsAt(rs), StringsAt(rs);
    ghost var g := 0;
    for k := 0 to |rs|
      invariant entryLast == EntryOff(k) && g == First(rs, k) <= |Flat(rs)|
      invariant csymLast == SymOff(rs, g) && cstrLast == StrOff(rs, g)
      invariant Stored(buf[..], base, rs, k, g)
    {
      entryLast, csymLast, cstrLast := PutEntry(buf, base, rs, k, entryLast, csymLast, cstrLast);
      FlatSnoc(rs, k);
      g := g + |rs[k]|;
    }
    assert rs[..|rs|] == rs;
    StringsEnd(rs);
  }

  /** The body of the outer loop: an entry and its symbols. */
  method PutEntry(buf: array<u8>, base: nat, rs: seq<seq<Sym>>, k: nat, entryLast: nat, csymLast: nat, cstrLast: nat)
    returns (entryNext: nat, csymNext: nat, cstrNext: nat)
    requires Fits(rs, base) && k < |rs| && First(rs, k) <= |Flat(rs)|
    requires entryLast == EntryOff(k) && csymLast == SymOff(rs, First(rs, k)) && cstrLast == StrOff(rs, First(rs, k))
    requires Stored(buf[..], base, rs, k, First(rs, k))
    modifies buf
    ensures First(rs, k) + |rs[k]| <= |Flat(rs)|
    ensures entryNext == EntryOff(k + 1)
    ensures csymNext == SymOff(rs, First(rs, k) + |rs[k]|) && cstrNext == StrOff(rs, First(rs, k) + |rs[k]|)
    ensures Stored(buf[..], base, rs, k + 1, First(rs, k) + |rs[k]|)
  {
    PutHead(buf, base, rs, k, entryLast, csymLast);
    entryNext := entryLast + ENTRY_SIZE;
    csymNext, cstrNext := PutSyms(buf, base, rs, k, csymLast, cstrLast);
  }

  /** The two fields of an entry. */
  method PutHead(buf: array<u8>, base: nat, rs: seq<seq<Sym>>, k: nat, entryLast: nat, csymLast: nat)
    requires Fits(rs, base) && k < |rs| && First(rs, k) <= |Flat(rs)|
    requires entryLast == EntryOff(k) && csymLast == SymOff(rs, First(rs, k))
    requires Stored(buf[..], base, rs, k, First(rs, k))
    modifies buf
    ensures Stored(buf[..], base, rs, k + 1, First(rs, k))
  {
    hide Stored;
    hide U64Bytes;
    ghost var e := EntrySeg(rs, base, k);
    StoreEntry(buf[..], base, rs, k, First(rs, k));
    EntryFits(rs, k);
    assert e == Seg(entryLast, U64Bytes(|rs[k]|) + U64Bytes(base + csymLast));
    PutPair(buf, entryLast, |rs[k]|, base + csymLast);
  }

  /** The inner loop. */
  method PutSyms(buf: array<u8>, base: nat, rs: seq<seq<Sym>>, k: nat, csymLast: nat, cstrLast: nat)
    returns (csymNext: nat, cstrNext: nat)
    requires Fits(rs, base) && k < |rs| && First(rs, k) <= |Flat(rs)|
    requires csymLast == SymOff(rs, First(rs, k)) && cstrLast == StrOff(rs, First(rs, k))
    requires Stored(buf[..], base, rs, k + 1, First(rs, k))
    modifies buf
    ensures First(rs, k) + |rs[k]| <= |Flat(rs)|
    ensures csymNext == SymOff(rs, First(rs, k) + |rs[k]|) && cstrNext == StrOff(rs, First(rs, k) + |rs[k]|)
    ensures Stored(buf[..], base, rs, k + 1, First(rs, k) + |rs[k]|)
  {
    hide Stored;
    EntryFits(rs, k);
    csymNext, cstrNext := csymLast, cstrLast;
    ghost var g := First(rs, k);
    for j := 0 to |rs[k]|
      invariant g == First(rs, k) + j
      invariant csymNext == SymOff(rs, g) && cstrNext == StrOff(rs, g)
      invariant Stored(buf[..], base, rs, k + 1, g)
    {
      FlatAt(rs, |rs|, k, j);
      assert rs[..|rs|] == rs;
      csymNext, cstrNext := PutNext(buf, base, rs, k + 1, g, csymNext, cstrNext, rs[k][j]);
      g := g + 1;
    }
  }

  /** The body of the inner loop: a symbol. */
  method PutNext(buf: array<u8>, base: nat, rs: seq<seq<Sym>>, ghost k: nat, ghost g: nat,
                 csymLast: nat, cstrLast: nat, x: Sym)
    returns (csymNext: nat, cstrNext: nat)
    requires Fits(rs, base) && k <= |rs| && g < |Flat(rs)| && Flat(rs)[g] == x
    requires csymLast == SymOff(rs, g) && cstrLast == StrOff(rs, g)
    requires Stored(buf[..], base, rs, k, g)
    modifies buf
    ensures csymNext == SymOff(rs, g + 1) && cstrNext == StrOff(rs, g + 1)
    ensures Stored(buf[..], base, rs, k, g + 1)
  {
    hide Stored;
    hide U64Bytes;
    ghost var s, r := StrSeg(rs, g), SymSeg(rs, base, g);
    StoreSym(buf[..], base, rs, k, g);
    StrOffs(rs, g, g + 1);
    assert s == Seg(cstrLast, Strings(x)) && r == Seg(csymLast, Record(base + cstrLast, x));
    cstrNext := PutSym(buf, base, csymLast, cstrLast, x);
    csymNext := csymLast + CSYM_SIZE;
  }

  lemma StringsEnd(rs: seq<seq<Sym>>)
    ensures StrOff(rs, |Flat(rs)|) == Total(rs)
  {
    assert Flat(rs)[..|Flat(rs)|] == Flat(rs);
  }

  // ---------- reading back ----------

  lemma HeldWord(mem: seq<u8>, off: nat, v: u64)
    requires Holds(mem, Seg(off, U64Bytes(v)))
    ensures U64At(mem, off) == v
  {
  }

  /** A segment holds each of its parts. */
  lemma HeldPart(mem: seq<u8>, off: nat, a: seq<u8>, b: seq<u8>, c: seq<u8>)
    requires Holds(mem, Seg(off, a + b + c))
    ensures Holds(mem, Seg(off + |a|, b))
  {
    var whole := mem[off..off + |a + b + c|];
    forall i | 0 <= i < |b|
      ensures mem[off + |a| + i] == b[i]
    {
      assert whole[|a| + i] == mem[off + (|a| + i)];
    }
  }

  lemma {:induction false} UpToNulStops(s: seq<u8>, rest: seq<u8>)
    ensures UpToNul(s + ([0] + rest)) == UpToNul(s)
  {
    if s == [] {
      assert s + ([0] + rest) == [0] + rest;
    } else if s[0] != 0 {
      UpToNulStops(s[1..], rest);
      assert (s + ([0] + rest))[1..] == s[1..] + ([0] + rest);
    }
  }

  lemma HeldStr(mem: seq<u8>, base: nat, off: nat, s: seq<u8>)
    requires Holds(mem, Seg(off, s + [0]))
    ensures ReadStr(mem, base, base + off) == UpToNul(s)
  {
    var end := off + |s| + 1;
    assert mem[off..] == mem[off..end] + mem[end..] == s + ([0] + mem[end..]);
    UpToNulStops(s, mem[end..]);
  }

  lemma HeldFive(mem: seq<u8>, off: nat, a: seq<u8>, b: seq<u8>, c: seq<u8>, d: seq<u8>, e: seq<u8>)
    requires Holds(mem, Seg(off, (a + b) + (c + d) + e))
    ensures Holds(mem, Seg(off, a)) && Holds(mem, Seg(off + |a|, b)) && Holds(mem, Seg(off + |a| + |b|, c))
    ensures Holds(mem, Seg(off + |a| + |b| + |c|, d)) && Holds(mem, Seg(off + |a| + |b| + |c| + |d|, e))
  {
    var r := (a + b) + (c + d) + e;
    assert r == [] + a + (b + c + d + e) && r == a + b + (c + d + e) && r == (a + b) + c + (d + e);
    assert r == (a + b + c) + d + e && r == (a + b + c + d) + e + [];
    HeldPart(mem, off, [], a, b + c + d + e);
    HeldPart(mem, off, a, b, c + d + e);
    HeldPart(mem, off, a + b, c, d + e);
    HeldPart(mem, off, a + b + c, d, e);
    HeldPart(mem, off, a + b + c + d, e, []);
  }

  lemma SymReads(mem: seq<u8>, base: nat, off: nat, at: nat, x: Sym)
    requires base + at + |x.symbol| + 1 < TWO64
    requires Holds(mem, Seg(off, Record(base + at, x))) && Holds(mem, Seg(at, Strings(x)))
    ensures ReadSym(mem, base, off) == Seen(x)
  {
    HeldFive(mem, off, U64Bytes(base + at), U64Bytes(x.start), U64Bytes(base + at + |x.symbol| + 1),
             U64Bytes(x.line), U64Bytes(x.column));
    HeldWord(mem, off, base + at);
    HeldWord(mem, off + 8, x.start);
    HeldWord(mem, off + 16, base + at + |x.symbol| + 1);
    HeldWord(mem, off + 24, x.line);
    HeldWord(mem, off + 32, x.column);
    StringsRead(mem, base, at, x);
  }

  lemma HeldPair(mem: seq<u8>, off: nat, v: u64, w: u64)
    requires Holds(mem, Seg(off, U64Bytes(v) + U64Bytes(w)))
    ensures U64At(mem, off) == v && U64At(mem, off + 8) == w
  {
    var a, b := U64Bytes(v), U64Bytes(w);
    assert a + b == [] + a + b && a + b == a + b + [];
    HeldPart(mem, off, [], a, b);
    HeldPart(mem, off, a, b, []);
    HeldWord(mem, off, v);
    HeldWord(mem, off + 8, w);
  }

  lemma StringsRead(mem: seq<u8>, base: nat, at: nat, x: Sym)
    requires Holds(mem, Seg(at, Strings(x)))
    ensures ReadStr(mem, base, base + at) == UpToNul(x.symbol)
    ensures ReadStr(mem, base, base + at + |x.symbol| + 1) == UpToNul(x.path)
  {
    var first, second := x.symbol + [0], x.path + [0];
    assert Strings(x) == [] + first + second && Strings(x) == first + second + [];
    HeldPart(mem, at, [], first, second);
    HeldPart(mem, at, first, second, []);
    HeldStr(mem, base, at, x.symbol);
    HeldStr(mem, base, at + |first|, x.path);
  }

  /** Symbol `j` of entry `k`, read at its place. */
  lemma SymAtReads(mem: seq<u8>, base: nat, rs: seq<seq<Sym>>, g: nat)
    requires Fits(rs, base) && g < |Flat(rs)| && Holds(mem, SymSeg(rs, base, g)) && Holds(mem, StrSeg(rs, g))
    ensures ReadSym(mem, base, SymOff(rs, g)) == Seen(Flat(rs)[g])
  {
    StrOffs(rs, g, g + 1);
    SymReads(mem, base, SymOff(rs, g), StrOff(rs, g), Flat(rs)[g]);
  }

  lemma EntryAtReads(mem: seq<u8>, base: nat, rs: seq<seq<Sym>>, k: nat)
    requires Fits(rs, base) && k < |rs| && Holds(mem, EntrySeg(rs, base, k))
    ensures ReadEntry(mem, base, k) == ReadSyms(mem, base, SymOff(rs, First(rs, k)), |rs[k]|)
  {
    hide U64Bytes;
    hide U64At;
    EntryFits(rs, k);
    assert EntrySeg(rs, base, k) == Seg(EntryOff(k), U64Bytes(|rs[k]|) + U64Bytes(base + SymOff(rs, First(rs, k))));
    HeldPair(mem, EntryOff(k), |rs[k]|, base + SymOff(rs, First(rs, k)));
  }

  lemma SymOfEntryReads(mem: seq<u8>, base: nat, rs: seq<seq<Sym>>, k: nat, j: nat)
    requires Fits(rs, base) && k < |rs| && j < |rs[k]| && Stored(mem, base, rs, |rs|, |Flat(rs)|)
    ensures ReadSym(mem, base, SymOff(rs, First(rs, k)) + CSYM_SIZE * j) == Seen(rs[k][j])
  {
    FlatAt(rs, |rs|, k, j);
    assert rs[..|rs|] == rs;
    var g := First(rs, k) + j;
    assert SymOff(rs, g) == SymOff(rs, First(rs, k)) + CSYM_SIZE * j;
    SymAtReads(mem, base, rs, g);
  }

  lemma EntrySeen(mem: seq<u8>, base: nat, at: nat, e: seq<Sym>)
    requires forall j :: 0 <= j < |e| ==> ReadSym(mem, base, at + CSYM_SIZE * j) == Seen(e[j])
    ensures ReadSyms(mem, base, at, |e|) == SeenEntry(e)
  {
  }

  lemma EntryReads(mem: seq<u8>, base: nat, rs: seq<seq<Sym>>, k: nat)
    requires Fits(rs, base) && k < |rs| && Stored(mem, base, rs, |rs|, |Flat(rs)|)
    ensures ReadEntry(mem, base, k) == SeenEntry(rs[k])
  {
    EntryAtReads(mem, base, rs, k);
    var at := SymOff(rs, First(rs, k));
    forall j | 0 <= j < |rs[k]|
      ensures ReadSym(mem, base, at + CSYM_SIZE * j) == Seen(rs[k][j])
    {
      SymOfEntryReads(mem, base, rs, k, j);
    }
    EntrySeen(mem, base, at, rs[k]);
  }

  lemma ReadBack(mem: seq<u8>, base: nat, rs: seq<seq<Sym>>)
    requires Fits(rs, base) && Stored(mem, base, rs, |rs|, |Flat(rs)|)
    ensures ReadResult(mem, base) == SeenAll(rs) && U64At(mem, 0) == Total(rs) - WORD
  {
    HeldPair(mem, 0, Total(rs) - WORD, |rs|);
    forall k | 0 <= k < |rs|
      ensures ReadEntry(mem, base, k) == SeenEntry(rs[k])
    {
      EntryReads(mem, base, rs, k);
    }
  }

  lemma {:induction false} SeenWhole(s: seq<u8>)
    ensures UpToNul(s) == s <==> 0 !in s
  {
    if s != [] {
      SeenWhole(s[1..]);
      assert s == [s[0]] + s[1..];
    }
  }

  /** The symbols themselves, as the caller should see them. */
  function Whole(s: Sym): CSym { CSym(s.symbol, s.start, s.path, s.line, s.column) }

  function WholeAll(rs: seq<seq<Sym>>): seq<seq<CSym>> {
    seq(|rs|, k requires 0 <= k < |rs| => seq(|rs[k]|, j requires 0 <= j < |rs[k]| => Whole(rs[k][j])))
  }

  predicate NulFree(s: Sym) { 0 !in s.symbol && 0 !in s.path }

  /** The caller reads back the original lists if and only if no string holds a NUL. */
  lemma RoundTripIff(rs: seq<seq<Sym>>)
    ensures SeenAll(rs) == WholeAll(rs) <==>
      forall k, j :: 0 <= k < |rs| && 0 <= j < |rs[k]| ==> NulFree(rs[k][j])
  {
    forall k, j | 0 <= k < |rs| && 0 <= j < |rs[k]|
      ensures SeenAll(rs)[k][j] == WholeAll(rs)[k][j] <==> NulFree(rs[k][j])
    {
      SeenWhole(rs[k][j].symbol);
      SeenWhole(rs[k][j].path);
    }
    forall k | 0 <= k < |rs|
      ensures SeenAll(rs)[k] == WholeAll(rs)[k] <==> forall j :: 0 <= j < |rs[k]| ==> NulFree(rs[k][j])
    {
      if forall j :: 0 <= j < |rs[k]| ==> NulFree(rs[k][j]) {
        assert forall j :: 0 <= j < |rs[k]| ==> SeenAll(rs)[k][j] == WholeAll(rs)[k][j];
      }
    }
  }
}

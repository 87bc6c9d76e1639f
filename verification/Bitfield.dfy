/**
  Bit fields printed through two 64-bit words: shifting left and then right
  extracts exactly the bits of the field (little-endian hosts).
 */
module Bitfield {
  import opened Bytes

  /** A 64-bit word. */
  ghost predicate IsWord(x: int) { 0 <= x < TWO64 }

  /** `x << s` and `x >> s` on 64-bit words. */
  function Shl(x: nat, s: nat): nat
    requires s < 64
  {
    (x * Pow2(s)) % TWO64
  }

  function Shr(x: nat, s: nat): nat
    requires s < 64
  {
    Quot(x, Pow2(s))
  }

  /** The bitwise or of a word whose low `s` bits are clear and a word of `s` bits. */
  function Or(high: nat, low: nat, s: nat): nat
    requires high % Pow2(s) == 0 && low < Pow2(s)
  {
    high + low
  }

  /** The 128-bit number in a pair of words. */
  function Pair(upper: nat, lower: nat): nat { upper * TWO64 + lower }

  // ---------- the arithmetic of the two shifts ----------

  /** Splitting a word at bit 64 - s, where u = 2^s and c = 2^(64-s). */
  lemma ShlWord(x: nat, u: nat, c: nat, w: nat)
    requires u > 0 && c > 0 && w == u * c && x < w
    ensures w > 0 && x / c < u && (x * u) % w == (x % c) * u && x * u == (x / c) * w + (x % c) * u
    ensures 0 <= (x % c) * u <= w - u
  {
    var q, r := x / c, x % c;
    assert x == q * c + r;
    if q >= u {
      MulLe(u, q, c);
    }
    ProductSplit(q, c, r, u);
    MulLe(0, r, u);
    MulLe(r + 1, c, u);
    MulDist(r, 1, u);
    DivMod(x * u, w, q, r * u);
  }

  lemma ProductSplit(q: int, c: int, r: int, u: int)
    ensures (q * c + r) * u == q * (u * c) + r * u
  {
    MulDist(q * c, r, u);
    MulAssoc(q, c, u);
  }

  lemma SwapMul(a: int, b: int, c: int)
    ensures (a * b) * c == (a * c) * b
  {
  }

  /** A left shift by less than a word: nothing crosses but the bits carried into the upper word. */
  lemma ShlPair(upper: nat, lower: nat, u: nat, c: nat, w: nat)
    requires u > 0 && c > 0 && w == u * c && upper < w && lower < w
    ensures w > 0 && w * w > 0 && (upper * u) % w % u == 0 && lower / c < u
    ensures ((upper * u) % w + lower / c) * w + (lower * u) % w == ((upper * w + lower) * u) % (w * w)
    ensures (upper * u) % w + lower / c < w
  {
    ShlWord(upper, u, c, w);
    ShlWord(lower, u, c, w);
    var a, b := upper / c, (upper % c) * u;
    var q, r := lower / c, (lower % c) * u;
    DivMod(b, u, upper % c, 0);
    MulDist(upper * w, lower, u);
    SwapMul(upper, w, u);
    ProductSplit(a, w, b, w);
    MulDist(b, q, w);
    MulLe(b + q, w - 1, w);
    MulDist(w, -1, w);
    MulLe(0, b + q, w);
    MulLe(1, w, w);
    DivMod((upper * w + lower) * u, w * w, a, (b + q) * w + r);
  }

  /** A left shift by a word or more: the lower word moves up. */
  lemma ShlHigh(upper: nat, lower: nat, u: nat, c: nat, w: nat)
    requires u > 0 && c > 0 && w == u * c && lower < w
    ensures w > 0 && w * w > 0 && ((lower * u) % w) * w == ((upper * w + lower) * (u * w)) % (w * w)
  {
    ShlWord(lower, u, c, w);
    var q, r := lower / c, (lower % c) * u;
    var x := upper * w + lower;
    MulAssoc(x, u, w);
    MulDist(upper * w, lower, u);
    SwapMul(upper, w, u);
    MulDist((upper * u) * w, lower * u, w);
    MulAssoc(upper * u, w, w);
    ProductSplit(q, w, r, w);
    MulDist(upper * u, q, w * w);
    MulLe(0, r, w);
    MulLe(r + 1, w, w);
    MulDist(r, 1, w);
    MulLe(1, w, w);
    DivMod(x * (u * w), w * w, upper * u + q, r * w);
  }

  /** A right shift by less than a word. */
  lemma ShrPair(upper: nat, lower: nat, v: nat, c: nat, w: nat)
    requires v > 0 && c > 0 && w == v * c && upper < w && lower < w
    ensures w > 0 && lower / v < c && (upper * c) % w % c == 0
    ensures (upper / v) * w + ((upper * c) % w + lower / v) == (upper * w + lower) / v
    ensures (upper * c) % w + lower / v < w && upper / v < w
  {
    ShlWord(upper, c, v, w);
    var q, r := upper / v, (upper % v) * c;
    var l1, l0 := lower / v, lower % v;
    DivMod(r, c, upper % v, 0);
    assert lower == l1 * v + l0;
    if l1 >= c {
      MulLe(c, l1, v);
    }
    MulAssoc(upper, c, v);
    MulDist(upper * c, l1, v);
    DivMod(upper * w + lower, v, upper * c + l1, l0);
    MulLe(1, v, c);
  }

  /** A right shift by a word or more: the upper word moves down. */
  lemma ShrHigh(upper: nat, lower: nat, v: nat, w: nat)
    requires v > 0 && w > 0 && lower < w
    ensures v * w > 0 && (upper * w + lower) / (v * w) == upper / v
  {
    var q, r := upper / v, upper % v;
    assert upper == q * v + r;
    ProductSplit(q, v, r, w);
    MulLe(0, r, w);
    MulLe(r + 1, v, w);
    MulDist(r, 1, w);
    MulLe(1, v, w);
    assert upper * w + lower == q * (w * v) + (r * w + lower);
    DivMod(upper * w + lower, v * w, q, r * w + lower);
  }

  // ---------- the two words ----------

  /** btf_int128_shift: left by `left` bits, then right by `right` bits, in 128 bits. */
  method Int128Shift(num: array<nat>, left: nat, right: nat)
    requires num.Length == 2 && IsWord(num[0]) && IsWord(num[1]) && 1 <= left < 128 && 1 <= right < 128
    modifies num
    ensures IsWord(num[0]) && IsWord(num[1])
    ensures Pair(num[1], num[0]) ==
      ((old(Pair(num[1], num[0])) * Pow2(left)) % (TWO64 * TWO64)) / Pow2(right)
  {
    var upper, lower := num[1], num[0];
    upper, lower := ShiftLeft(upper, lower, left);
    upper, lower := ShiftRight(upper, lower, right);
    num[0] := lower;
    num[1] := upper;
  }

  method ShiftLeft(upper0: nat, lower0: nat, left: nat) returns (upper: nat, lower: nat)
    requires IsWord(upper0) && IsWord(lower0) && 1 <= left < 128
    ensures IsWord(upper) && IsWord(lower)
    ensures TWO64 * TWO64 > 0 && Pair(upper, lower) == (Pair(upper0, lower0) * Pow2(left)) % (TWO64 * TWO64)
  {
    Pow2Is64();
    upper, lower := upper0, lower0;
    if left >= 64 {
      Pow2Add(left - 64, 64);
      Pow2Add(left - 64, 64 - (left - 64));
      ShlHigh(upper, lower, Pow2(left - 64), Pow2(64 - (left - 64)), TWO64);
      upper := Shl(lower, left - 64);
      lower := 0;
    } else {
      Pow2Add(left, 64 - left);
      ShlPair(upper, lower, Pow2(left), Pow2(64 - left), TWO64);
      upper := Or(Shl(upper, left), Shr(lower, 64 - left), left);
      lower := Shl(lower, left);
    }
  }

  method ShiftRight(upper0: nat, lower0: nat, right: nat) returns (upper: nat, lower: nat)
    requires IsWord(upper0) && IsWord(lower0) && 1 <= right < 128
    ensures IsWord(upper) && IsWord(lower)
    ensures Pair(upper, lower) == Pair(upper0, lower0) / Pow2(right)
  {
    Pow2Is64();
    upper, lower := upper0, lower0;
    if right >= 64 {
      Pow2Add(right - 64, 64);
      ShrHigh(upper, lower, Pow2(right - 64), TWO64);
      DivLe(upper, Pow2(right - 64));
      lower := Shr(upper, right - 64);
      upper := 0;
    } else {
      Pow2Add(right, 64 - right);
      ShrPair(upper, lower, Pow2(right), Pow2(64 - right), TWO64);
      lower := Or(Shl(upper, 64 - right), Shr(lower, right), 64 - right);
      upper := Shr(upper, right);
    }
  }

  lemma DivLe(x: nat, d: nat)
    requires d > 0
    ensures x / d <= x
  {
    MulLe(1, d, x / d);
  }

  // ---------- extraction ----------

  lemma ScaledMod(v: nat, m: nat, l: nat)
    requires m > 0 && l > 0
    ensures m * l > 0 && (v * l) % (m * l) == (v % m) * l
  {
    var q, r := v / m, v % m;
    Euclid(v, m);
    MulDist(q * m, r, l);
    MulAssoc(q, m, l);
    MulLe(0, r, l);
    MulLe(r + 1, m, l);
    MulDist(r, 1, l);
    MulAtLeast(m, l);
    DivMod(v * l, m * l, q, r * l);
  }

  lemma ScaledDiv(r: nat, o: nat, l: nat)
    requires o > 0 && l > 0
    ensures l * o > 0 && (r * l) / (l * o) == r / o
  {
    var r1, r0 := r / o, r % o;
    Euclid(r, o);
    MulLe(0, r0, l);
    MulLe(r0 + 1, o, l);
    MulDist(r0, 1, l);
    ProductSplit(r1, o, r0, l);
    MulAtLeast(l, o);
    DivMod(r * l, l * o, r1, r0 * l);
  }

  lemma DivThenMod(v: nat, o: nat, n: nat)
    requires o > 0 && n > 0
    ensures o * n > 0 && (v / o) % n == (v % (o * n)) / o
  {
    MulAtLeast(o, n);
    var q, r := v / (o * n), v % (o * n);
    Euclid(v, o * n);
    var r1, r0 := r / o, r % o;
    Euclid(r, o);
    if r1 >= n {
      MulLe(n, r1, o);
    }
    if r1 < 0 {
      MulLe(r1, -1, o);
    }
    MulAssoc(q, n, o);
    MulDist(q * n, r1, o);
    DivMod(v, o, q * n + r1, r0);
    DivMod(v / o, n, q, r1);
  }

  /** Shifting the unwanted high bits out and the unwanted low bits out, where o = 2^offset, n = 2^bits
      and l = 2^(unused bits). */
  lemma ShiftsExtract(v: nat, o: nat, n: nat, l: nat)
    requires o > 0 && n > 0 && l > 0
    ensures (o * n) * l > 0 && l * o > 0 && ((v * l) % ((o * n) * l)) / (l * o) == (v / o) % n
  {
    DivThenMod(v, o, n);
    ScaledMod(v, o * n, l);
    ScaledDiv(v % (o * n), o, l);
  }

  /** The number in `data`, split after `k` bytes. */
  lemma {:induction false} WordSplit(data: seq<u8>, k: nat)
    requires k <= |data|
    ensures Word(data) == Word(data[k..]) * Pow2(8 * k) + Word(data[..k])
    ensures Word(data[..k]) < Pow2(8 * k)
    decreases k
  {
    if k == 0 {
      assert data[0..] == data && data[..0] == [];
    } else {
      var rest := data[1..];
      WordSplit(rest, k - 1);
      assert rest[k - 1..] == data[k..] && rest[..k - 1] == data[..k][1..];
      Pow2Eight(8 * (k - 1));
      var t, p := Word(data[k..]), Pow2(8 * (k - 1));
      assert 256 * (t * p) == t * (256 * p) by {
        MulAssoc(t, 256, p);
        MulAssoc(256, t, p);
      }
    }
  }

  /** What lies beyond the copied bytes does not reach the field. */
  lemma HighBytesIgnored(data: seq<u8>, n: nat, off: nat, bits: nat)
    requires n <= |data| && off + bits <= 8 * n
    ensures (Word(data) / Pow2(off)) % Pow2(bits) == (Word(data[..n]) / Pow2(off)) % Pow2(bits)
  {
    var d := 8 * n - (off + bits);
    var t := Word(data[n..]);
    WordSplit(data, n);
    Pow2Add(off, bits);
    Pow2Add(d, off + bits);
    var m := Pow2(off) * Pow2(bits);
    assert Pow2(8 * n) == Pow2(d) * m by {
      assert d + (off + bits) == 8 * n;
    }
    MulAssoc(t, Pow2(d), m);
    SameField(Word(data), Word(data[..n]), t * Pow2(d), Pow2(off), Pow2(bits));
  }

  /** Multiples of o * b do not change the field of b values above o. */
  lemma SameField(v: nat, v': nat, k: int, o: nat, b: nat)
    requires o > 0 && b > 0 && v == k * (o * b) + v'
    ensures (v / o) % b == (v' / o) % b
  {
    var x, y := v' / o, v' % o;
    assert v' == x * o + y;
    MulAssoc(k, b, o);
    MulDist(k * b, x, o);
    DivMod(v, o, k * b + x, y);
    MulDist(k, x / b, b);
    DivMod(k * b + x, b, k + x / b, x % b);
  }

  /** memcpy into the two zeroed words. */
  method CopyBytes(data: seq<u8>, n: nat) returns (num: array<nat>)
    requires n <= |data| && n <= 16
    ensures fresh(num) && num.Length == 2 && IsWord(num[0]) && IsWord(num[1])
    ensures Pair(num[1], num[0]) == Word(data[..n])
  {
    num := new nat[2](_ => 0);
    var low := if n <= 8 then n else 8;
    num[0] := Word(data[..low]);
    num[1] := Word(data[low..n]);
    CopiedWords(data, n, low);
  }

  lemma CopiedWords(data: seq<u8>, n: nat, low: nat)
    requires n <= |data| && n <= 16 && low == if n <= 8 then n else 8
    ensures IsWord(Word(data[..low])) && IsWord(Word(data[low..n]))
    ensures Pair(Word(data[low..n]), Word(data[..low])) == Word(data[..n])
  {
    Pow2Is64();
    hide Pow2;
    var copied := data[..n];
    WordSplit(copied, low);
    assert copied[..low] == data[..low] && copied[low..] == data[low..n];
    Pow2Monotone(8 * low, 64);
    WordSplit(data[low..n], n - low);
    assert data[low..n][..n - low] == data[low..n];
    Pow2Monotone(8 * (n - low), 64);
    if n <= 8 {
      assert data[low..n] == [];
    }
  }

  lemma FieldShifted(v: nat, off: nat, bits: nat)
    requires off + bits <= 128
    ensures ((v * Pow2(128 - (off + bits))) % (TWO64 * TWO64)) / Pow2(128 - bits) == (v / Pow2(off)) % Pow2(bits)
  {
    hide Pow2;
    var left := 128 - (off + bits);
    Pow2Is64();
    Pow2Add(off, bits);
    Pow2Add(off + bits, left);
    Pow2Add(64, 64);
    Pow2Add(left, off);
    ShiftsExtract(v, Pow2(off), Pow2(bits), Pow2(left));
  }

  /** btf_dumper_bitfield: the words that are printed hold the `bits` bits of `data` from bit `off` on. */
  method DumperBitfield(bits: nat, off: nat, data: seq<u8>) returns (num: array<nat>)
    requires 1 <= bits && off + bits <= 127 && off + bits <= 8 * |data|
    ensures num.Length == 2 && IsWord(num[0]) && IsWord(num[1])
    ensures Pair(num[1], num[0]) == (Word(data) / Pow2(off)) % Pow2(bits)
  {
    var bitsToCopy := off + bits;
    var bytesToCopy := bitsToCopy / 8 + if bitsToCopy % 8 != 0 then 1 else 0;
    num := CopyBytes(data, bytesToCopy);
    var left := 128 - bitsToCopy;
    var right := 128 - bits;
    Int128Shift(num, left, right);
    FieldShifted(Word(data[..bytesToCopy]), off, bits);
    HighBytesIgnored(data, bytesToCopy, off, bits);
  }

  lemma DivTwice(x: nat, a: nat, b: nat)
    requires a > 0 && b > 0
    ensures a * b > 0 && x / (a * b) == (x / a) / b
  {
    var q, r := x / a, x % a;
    var q1, r1 := q / b, q % b;
    assert x == q * a + r && q == q1 * b + r1;
    ProductSplit(q1, b, r1, a);
    MulLe(0, r1, a);
    MulLe(r1 + 1, b, a);
    MulDist(r1, 1, a);
    MulAtLeast(a, b);
    DivMod(x, a * b, q1, r1 * a + r);
  }

  /** btf_dumper_int_bits: splitting the bit offset into bytes and bits does not change the field. */
  method DumperIntBits(bits: nat, intOffset: nat, off: nat, data: seq<u8>) returns (num: array<nat>)
    requires 1 <= bits && (off + intOffset) % 8 + bits <= 127 && off + intOffset + bits <= 8 * |data|
    ensures num.Length == 2 && Pair(num[1], num[0]) == (Word(data) / Pow2(off + intOffset)) % Pow2(bits)
  {
    var total := off + intOffset;
    var k, o := total / 8, total % 8;
    num := DumperBitfield(bits, o, data[k..]);
    WordSplit(data, k);
    DivMod(Word(data), Pow2(8 * k), Word(data[k..]), Word(data[..k]));
    Pow2Add(8 * k, o);
    DivTwice(Word(data), Pow2(8 * k), Pow2(o));
  }
}

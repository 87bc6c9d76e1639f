/**
  Variable-length integers (section 7.6 of DWARF Version 4): the decoder reads
  seven bits per byte into 128 bits, and its result is what the encoding means.
 */
module Leb128 {
  import opened Bytes

  /** A decoded value with the number of bytes read; `Truncated` when the input ends first;
      `Overflow` when a shift or a subtraction exceeds its type. */
  datatype Leb = Value(v: int, len: nat) | Truncated | Overflow

  /** The number of leading bytes that announce another byte. */
  function Continued(data: seq<u8>): (n: nat)
    ensures n <= |data|
    ensures forall i :: 0 <= i < n ==> data[i] >= 128
    ensures n < |data| ==> data[n] < 128
  {
    if data == [] || data[0] < 128 then 0 else 1 + Continued(data[1..])
  }

  /** The number written in base 128, least significant digit first. */
  function Digits(data: seq<u8>): (v: nat)
  {
    if data == [] then 0 else data[0] % 128 + 128 * Digits(data[1..])
  }

  const MAX_BYTES := 19

  /** The meaning of reading an unsigned number from the front of `data`. */
  function ReadU(data: seq<u8>): (r: Leb)
  {
    var n := Continued(data);
    if n == |data| then if n <= MAX_BYTES then Truncated else Overflow
    else if n >= MAX_BYTES then Overflow
    else Value(Accumulated(data[..n + 1]), n + 1)
  }

  /** The low 128 bits of the number written in `data`. */
  function Accumulated(data: seq<u8>): nat { Digits(data) % Pow2(128) }

  /** The low seven bits of `b` shifted left, in 128 bits. */
  function Shifted(b: u8, shift: nat): nat { ((b % 128) * Pow2(shift)) % Pow2(128) }

  lemma {:induction false} DigitsSnoc(data: seq<u8>, b: u8)
    ensures Digits(data + [b]) == Digits(data) + (b % 128) * Pow2(7 * |data|)
  {
    if data == [] {
      assert data + [b] == [b];
      assert Digits([b][1..]) == 0;
    } else {
      assert (data + [b])[1..] == data[1..] + [b];
      DigitsSnoc(data[1..], b);
      Pow2Seven(7 * |data[1..]|);
      assert 128 * ((b % 128) * Pow2(7 * |data[1..]|)) == (b % 128) * (128 * Pow2(7 * |data[1..]|));
    }
  }

  lemma {:induction false} DigitsBound(data: seq<u8>)
    ensures Digits(data) < Pow2(7 * |data|)
  {
    if data != [] {
      DigitsBound(data[1..]);
      Pow2Seven(7 * |data[1..]|);
    }
  }

  /** read_u128_leb128.  The bits of `value` below `shift` are the only ones set, so the bitwise
      or with the shifted byte is an addition. */
  method ReadU128(data: seq<u8>) returns (r: Leb)
    ensures r == ReadU(data)
  {
    var shift, value, i := 0, 0, 0;
    assert data[..0] == [];
    DivMod(Digits([]), Pow2(128), 0, 0);
    while i < |data|
      invariant 0 <= i <= |data| && shift == 7 * i
      invariant i <= MAX_BYTES && value == Accumulated(data[..i])
      invariant forall j :: 0 <= j < i ==> data[j] >= 128
    {
      ReadUAt(data, i);
      var byte := data[i];
      if shift >= 128 {
        return Overflow;
      }
      value, shift := value + Shifted(byte, shift), shift + 7;
      if byte < 128 {
        return Value(value, shift / 7);
      }
      i := i + 1;
    }
    ContinuedAt(data, i);
    return Truncated;
  }

  /** The result once `i` continued bytes are read. */
  lemma ReadUAt(data: seq<u8>, i: nat)
    requires i < |data| && i <= MAX_BYTES && forall j :: 0 <= j < i ==> data[j] >= 128
    ensures 7 * i >= 128 ==> ReadU(data) == Overflow
    ensures 7 * i < 128 ==> Accumulated(data[..i]) + Shifted(data[i], 7 * i) == Accumulated(data[..i + 1])
    ensures 7 * i < 128 && data[i] < 128 ==> ReadU(data) == Value(Accumulated(data[..i + 1]), i + 1)
  {
    ContinuedAt(data, i);
    if 7 * i < 128 {
      StepAccumulates(data[..i], data[i]);
      assert data[..i] + [data[i]] == data[..i + 1];
    }
  }

  lemma {:induction false} ContinuedAt(data: seq<u8>, i: nat)
    requires i <= |data| && forall j :: 0 <= j < i ==> data[j] >= 128
    ensures Continued(data) >= i
    ensures i < |data| && data[i] < 128 ==> Continued(data) == i
    ensures i == |data| ==> Continued(data) == i
  {
    if i > 0 {
      ContinuedAt(data[1..], i - 1);
    }
  }

  /** One byte more: nothing is lost below 128 bits, and bits beyond them are dropped. */
  lemma StepValue(data: seq<u8>, b: u8, w: nat)
    requires 7 * |data| <= w
    ensures Digits(data) % Pow2(w) + ((b % 128) * Pow2(7 * |data|)) % Pow2(w) == Digits(data + [b]) % Pow2(w)
  {
    var u, d, m := Pow2(7 * |data|), Pow2(w - 7 * |data|), Pow2(w);
    assert m == u * d by {
      Pow2Add(7 * |data|, w - 7 * |data|);
    }
    DigitsSnoc(data, b);
    DigitsBound(data);
    AddAbove(Digits(data), b % 128, u, d, m);
  }

  lemma StepAccumulates(data: seq<u8>, b: u8)
    requires 7 * |data| < 128
    ensures Accumulated(data) + Shifted(b, 7 * |data|) == Accumulated(data + [b])
  {
    StepValue(data, b, 128);
  }

  /** A number below `u` and a multiple of `u`, modulo a multiple of `u`. */
  lemma AddAbove(x: nat, k: nat, u: nat, d: nat, m: nat)
    requires u > 0 && d > 0 && x < u && m == u * d > 0
    ensures x % m + (k * u) % m == (x + k * u) % m
  {
    var q, r := k / d, k % d;
    Euclid(k, d);
    MulDist(q * d, r, u);
    MulAssoc(q, d, u);
    MulDist(d - r, r, u);
    MulAtLeast(d - r, u);
    MulLe(0, r, u);
    MulAtLeast(d, u);
    DivMod(x, m, 0, x);
    DivMod(k * u, m, q, r * u);
    DivMod(x + k * u, m, q, x + r * u);
  }

  // ---------- sign extension ----------

  /** The 128-bit pattern `x` read as a signed number. */
  function ToI128(x: int): int { if x < Pow2(127) then x else x - Pow2(128) }

  /** read_i128_leb128: shift left, then arithmetically right, by the unused bits. */
  function ReadI(data: seq<u8>): Leb {
    match ReadU(data)
    case Value(v, len) =>
      if len * 7 > 128 then Overflow
      else
        var signBits := 128 - len * 7;
        Value(ToI128((v * Pow2(signBits)) % Pow2(128)) / Pow2(signBits), len)
    case r => r
  }

  /** The two shifts interpret a number of `k` bits as two's complement. */
  lemma SignExtends(v: int, k: nat)
    requires 1 <= k <= 128 && 0 <= v < Pow2(k)
    ensures ToI128((v * Pow2(128 - k)) % Pow2(128)) / Pow2(128 - k) == if v < Pow2(k - 1) then v else v - Pow2(k)
  {
    Pow2Add(k, 128 - k);
    Pow2Add(k - 1, 128 - k);
    ShiftBack(v, Pow2(k - 1), Pow2(128 - k));
  }

  lemma ShiftBack(v: int, half: nat, u: nat)
    requires half > 0 && u > 0 && 0 <= v < 2 * half
    ensures half * u > 0
    ensures
      var x := (v * u) % (2 * (half * u));
      (if x < half * u then x else x - 2 * (half * u)) / u == if v < half then v else v - 2 * half
  {
    var m, p := half * u, v * u;
    MulAtLeast(half, u);
    assert p >= 0;
    assert (2 * half - v) * u == 2 * m - p;
    MulAtLeast(2 * half - v, u);
    DivMod(p, 2 * m, 0, p);
    assert (half - v) * u == m - p;
    if v < half {
      MulAtLeast(half - v, u);
      DivMod(p, u, v, 0);
    } else {
      assert p >= m by {
        assert (v - half) * u == p - m;
      }
      DivMod(p - 2 * m, u, v - 2 * half, 0);
    }
  }

  // ---------- encoding ----------

  /** `n` in `width` bytes. */
  function EncodeU(n: nat, width: nat): (s: seq<u8>)
    requires width >= 1 && n < Pow2(7 * width)
    ensures |s| == width
  {
    if width == 1 then
      assert Pow2(7) == 128 by { Pow2Seven(0); }
      [n]
    else
      Pow2Seven(7 * (width - 1));
      [128 + n % 128] + EncodeU(n / 128, width - 1)
  }

  /** The range of signed numbers that fit in `width` bytes. */
  predicate FitsS(d: int, width: nat)
    requires width >= 1
  {
    0 - Pow2(7 * width - 1) <= d < Pow2(7 * width - 1)
  }

  function EncodeS(d: int, width: nat): (s: seq<u8>)
    requires width >= 1 && FitsS(d, width)
    ensures |s| == width
  {
    assert Pow2(7 * width) == 2 * Pow2(7 * width - 1);
    EncodeU(if d >= 0 then d else d + Pow2(7 * width), width)
  }

  lemma {:induction false} EncodedContinues(n: nat, width: nat, rest: seq<u8>)
    requires width >= 1 && n < Pow2(7 * width)
    ensures Continued(EncodeU(n, width) + rest) == width - 1
  {
    var s := EncodeU(n, width) + rest;
    if width == 1 {
      EncodeShape(n, 1);
      assert s[0] == n;
    } else {
      EncodeShape(n, width);
      EncodedContinues(n / 128, width - 1, rest);
      assert s[0] == 128 + n % 128 && s[1..] == EncodeU(n / 128, width - 1) + rest;
    }
  }

  lemma EncodeShape(n: nat, width: nat)
    requires width >= 1 && n < Pow2(7 * width)
    ensures width == 1 ==> n < 128 && EncodeU(n, width) == [n]
    ensures width > 1 ==> n / 128 < Pow2(7 * (width - 1))
    ensures width > 1 ==> EncodeU(n, width) == [128 + n % 128] + EncodeU(n / 128, width - 1)
  {
    if width == 1 {
      Pow2Seven(0);
    } else {
      Pow2Seven(7 * (width - 1));
    }
  }

  lemma {:induction false} EncodedU(n: nat, width: nat)
    requires width >= 1 && n < Pow2(7 * width)
    ensures Digits(EncodeU(n, width)) == n
  {
    EncodeShape(n, width);
    if width == 1 {
      assert [n][1..] == [];
    } else {
      EncodedU(n / 128, width - 1);
      assert EncodeU(n, width)[1..] == EncodeU(n / 128, width - 1);
    }
  }

  /** Reading back an encoded number, whatever follows it: its low 128 bits, unless it is written too wide. */
  lemma ReadEncodedU(n: nat, width: nat, rest: seq<u8>)
    requires width >= 1 && n < Pow2(7 * width)
    ensures ReadU(EncodeU(n, width) + rest) == if width <= MAX_BYTES then Value(n % Pow2(128), width) else Overflow
  {
    EncodedU(n, width);
    EncodedContinues(n, width, rest);
    assert (EncodeU(n, width) + rest)[..width] == EncodeU(n, width);
  }

  /** The same for a signed number, which may be one byte less wide. */
  lemma ReadEncodedS(d: int, width: nat, rest: seq<u8>)
    requires width >= 1 && FitsS(d, width)
    ensures ReadI(EncodeS(d, width) + rest) == if width < MAX_BYTES then Value(d, width) else Overflow
  {
    hide Pow2;
    hide ReadU;
    hide EncodeU;
    hide ToI128;
    var k := 7 * width;
    Pow2Double(k - 1);
    var n := if d >= 0 then d else d + Pow2(k);
    ReadEncodedU(n, width, rest);
    if width < MAX_BYTES {
      Pow2Monotone(k, 128);
      DivMod(n, Pow2(128), 0, n);
      SignExtends(n, k);
    }
  }

  lemma EncodeCons(b: u8, w: nat, n: nat)
    requires b >= 128 && n >= 1 && w < Pow2(7 * n) && b - 128 + 128 * w < Pow2(7 * (n + 1))
    ensures EncodeU(b - 128 + 128 * w, n + 1) == [b] + EncodeU(w, n)
  {
    var v := b - 128 + 128 * w;
    EncodeShape(v, n + 1);
    DivMod(v, 128, w, b - 128);
  }

  /** Every terminated byte string is the encoding, in its own length, of the number it denotes. */
  lemma {:induction false} DigitsEncode(data: seq<u8>)
    requires data != [] && Continued(data) == |data| - 1
    ensures Digits(data) < Pow2(7 * |data|) && EncodeU(Digits(data), |data|) == data
  {
    DigitsBound(data);
    var b, rest := data[0], data[1..];
    assert data == [b] + rest;
    if |data| == 1 {
      EncodeShape(Digits(data), 1);
    } else {
      assert Continued(rest) == |rest| - 1;
      DigitsEncode(rest);
      assert Digits(data) == b - 128 + 128 * Digits(rest);
      EncodeCons(b, Digits(rest), |rest|);
    }
  }
}

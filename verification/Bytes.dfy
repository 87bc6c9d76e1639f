/** Bytes and powers of two. */
module Bytes {

  type u8 = x: int | 0 <= x < 0x100

  function Pow2(n: nat): (r: nat)
    ensures r > 0
  {
    if n == 0 then 1 else 2 * Pow2(n - 1)
  }

  lemma {:induction false} Pow2Add(a: nat, b: nat)
    ensures Pow2(a + b) == Pow2(a) * Pow2(b)
  {
    if a > 0 {
      Pow2Add(a - 1, b);
      assert Pow2(a + b) == 2 * Pow2(a - 1 + b);
      assert 2 * (Pow2(a - 1) * Pow2(b)) == (2 * Pow2(a - 1)) * Pow2(b);
    }
  }

  lemma Pow2Double(n: nat)
    ensures Pow2(n + 1) == 2 * Pow2(n)
  {
  }

  /** A number of 64 bits. */
  const TWO64: int := 0x1_0000_0000_0000_0000

  type u64 = x: int | 0 <= x < TWO64

  lemma Pow2Is64()
    ensures Pow2(64) == TWO64
  {
    Pow2Is8();
    hide Pow2;
    Pow2Add(8, 8);
    Pow2Add(16, 16);
    Pow2Add(32, 32);
  }

  lemma Pow2Is8()
    ensures Pow2(8) == 256
  {
    assert Pow2(4) == 16;
  }

  lemma {:induction false} Pow2Monotone(a: nat, b: nat)
    requires a <= b
    ensures Pow2(a) <= Pow2(b)
    decreases b - a
  {
    if a < b {
      Pow2Monotone(a + 1, b);
    }
  }

  lemma Pow2Seven(n: nat)
    ensures Pow2(n + 7) == 128 * Pow2(n)
  {
    Pow2Add(n, 7);
    assert Pow2(7) == 128 by {
      assert Pow2(4) == 16;
    }
  }

  lemma MulDist(a: int, b: int, c: int)
    ensures (a + b) * c == a * c + b * c
  {
  }

  lemma MulAssoc(a: int, b: int, c: int)
    ensures (a * b) * c == a * (b * c)
  {
  }

  lemma MulLe(a: int, b: int, c: int)
    requires a <= b && c >= 0
    ensures a * c <= b * c
  {
  }

  lemma MulAtLeast(k: int, d: int)
    requires k >= 1 && d >= 0
    ensures k * d >= d
  {
  }

  /** Division with remainder has one answer. */
  lemma DivMod(x: int, d: int, q: int, r: int)
    requires d > 0 && 0 <= r < d && x == q * d + r
    ensures x / d == q && x % d == r
  {
    var k := x / d - q;
    assert k * d == (x / d) * d - q * d;
    assert (x / d) * d + x % d == x;
    if k >= 1 {
      MulAtLeast(k, d);
    } else if k <= -1 {
      MulAtLeast(-k, d);
    }
  }

  /** `mem` with `bytes` stored at `off`. */
  function Write(mem: seq<u8>, off: nat, bytes: seq<u8>): (r: seq<u8>)
    requires off + |bytes| <= |mem|
    ensures |r| == |mem|
  {
    mem[..off] + bytes + mem[off + |bytes|..]
  }

  lemma WriteSnoc(mem: seq<u8>, off: nat, bytes: seq<u8>, i: nat)
    requires off + |bytes| <= |mem| && i < |bytes|
    ensures Write(mem, off, bytes[..i])[off + i := bytes[i]] == Write(mem, off, bytes[..i + 1])
  {
  }

  lemma Euclid(x: int, d: int)
    requires d > 0
    ensures x == (x / d) * d + x % d && 0 <= x % d < d
  {
  }

  function Quot(x: nat, d: nat): nat
    requires d > 0
  {
    x / d
  }

  /** The number stored in little-endian order. */
  function Word(data: seq<u8>): nat {
    if data == [] then 0 else data[0] + 256 * Word(data[1..])
  }

  /** A number stored in `k` bytes, in little-endian order. */
  function WordBytes(a: nat, k: nat): (s: seq<u8>)
    requires a < Pow2(8 * k)
    ensures |s| == k
  {
    if k == 0 then []
    else
      Pow2Eight(8 * (k - 1));
      [a % 256] + WordBytes(a / 256, k - 1)
  }

  lemma Pow2Eight(n: nat)
    ensures Pow2(n + 8) == 256 * Pow2(n)
  {
    Pow2Seven(n);
  }

  lemma {:induction false} WordOfBytes(a: nat, k: nat)
    requires a < Pow2(8 * k)
    ensures Word(WordBytes(a, k)) == a
  {
    if k > 0 {
      Pow2Eight(8 * (k - 1));
      WordOfBytes(a / 256, k - 1);
      assert WordBytes(a, k)[1..] == WordBytes(a / 256, k - 1);
    }
  }
}

/**
  Field relocations: the values that libbpf computes for a field from where its
  access leads, and the bit-field read that programs make with them.
 */
module BtfField {
  import opened Wrappers
  import opened Bytes
  import opened Btf
  import opened BtfMark
  import opened BtfRecord
  import opened BtfTheorems
  import opened Chains
  import Bitfield

  datatype FieldKind = ByteOffset | ByteSize | Exists | Signed | LShift | RShift

  /** The aligned load that covers a field, and the bits of the field. */
  datatype Load = Load(size: nat, off: int, bits: nat)

  /** The load of a bit field: double its size until it covers the field. */
  function Cover(bitOff: int, bits: nat, size: nat): (r: Option<Load>)
    requires size > 0
    ensures r.Some? ==> r.value.bits == bits && r.value.size >= size
    decreases 8 - size
  {
    var off := bitOff / 8 / size * size;
    if bitOff + bits - off * 8 <= size * 8 then Some(Load(size, off, bits))
    else if size >= 8 then None
    else Cover(bitOff, bits, 2 * size)
  }

  /** The loop of bpf_core_calc_field_relo. */
  method FindCover(bitOff: int, bits: nat, size: nat) returns (r: Option<Load>)
    requires size > 0
    ensures r == Cover(bitOff, bits, size)
  {
    var byteSize: nat := size;
    var byteOff := bitOff / 8 / byteSize * byteSize;
    while bitOff + bits - byteOff * 8 > byteSize * 8
      invariant byteSize > 0 && byteOff == bitOff / 8 / byteSize * byteSize
      invariant Cover(bitOff, bits, byteSize) == Cover(bitOff, bits, size)
      decreases 8 - byteSize
    {
      if byteSize >= 8 {
        return None;
      }
      byteSize := byteSize * 2;
      byteOff := bitOff / 8 / byteSize * byteSize;
    }
    return Some(Load(byteSize, byteOff, bits));
  }

  /** The load covers the field and is aligned to its size. */
  lemma {:induction false} CoverCovers(bitOff: int, bits: nat, size: nat)
    requires size > 0 && Cover(bitOff, bits, size).Some?
    ensures
      var l := Cover(bitOff, bits, size).value;
      l.size > 0 && l.off % l.size == 0 && l.off * 8 <= bitOff && bitOff + bits <= (l.off + l.size) * 8
    decreases 8 - size
  {
    var q := bitOff / 8 / size;
    var off := q * size;
    Euclid(bitOff / 8, size);
    DivMod(off, size, q, 0);
    if bitOff + bits - off * 8 > size * 8 {
      CoverCovers(bitOff, bits, 2 * size);
    }
  }

  /** The load for the field: for a bit field from the size of its type, else its whole type. */
  ghost function LoadOf(types: seq<Type>, ptrSize: nat, x: Reached): Option<Load>
    requires ValidBtf(types) && x.typ < |types|
  {
    var t := Skip(types, x.typ);
    LoadFor(types[t], SizeOf(types, ptrSize, t), x)
  }

  /** The same, given the type and its resolved size. */
  function LoadFor(t: Type, resolved: Option<nat>, x: Reached): Option<Load> {
    if x.bits.Some? && x.bits.value > 0 then
      match t
      case Leaf(_, _, size, _, _, _) => if size == 0 then None else Cover(x.off, x.bits.value, size)
      case Composite(_, _, size, _, _) => if size == 0 then None else Cover(x.off, x.bits.value, size)
      case _ => None
    else
      match resolved
      case None => None
      case Some(size) => Some(Load(size, x.off / 8, size * 8))
  }

  predicate IsSigned(t: Type) { t.Leaf? && t.kind != Float && t.isSigned }

  /** bpf_core_calc_field_relo, on a little-endian host; `None` when it reports an error. */
  ghost function FieldValue(types: seq<Type>, ptrSize: nat, kind: FieldKind, x: Reached): Option<int>
    requires ValidBtf(types) && x.typ < |types|
  {
    if kind.Exists? then Some(1) else
    match LoadOf(types, ptrSize, x)
    case None => None
    case Some(l) => ValueOf(kind, l, x, IsSigned(types[Skip(types, x.typ)]))
  }

  /** The value of one kind, given the load for the field and whether its type is signed. */
  function ValueOf(kind: FieldKind, l: Load, x: Reached, isSigned: bool): Option<int> {
    match kind
    case ByteOffset => Some(l.off)
    case ByteSize => Some(l.size)
    case Signed => if x.bits.None? then None else Some(if isSigned then 1 else 0)
    case LShift => if x.bits.None? then None else Some(64 - (x.off + l.bits - l.off * 8))
    case RShift => if x.bits.None? then None else Some(64 - l.bits)
    case Exists => Some(1)
  }

  /** The sizes of a load. */
  predicate IsLoad(size: int) { size == 1 || size == 2 || size == 4 || size == 8 }

  /** Doubling keeps this: the load that covers a field can be made exactly when its type has the size of one. */
  lemma {:induction false} CoverIsLoad(bitOff: int, bits: nat, size: nat)
    requires size > 0 && Cover(bitOff, bits, size).Some?
    ensures IsLoad(Cover(bitOff, bits, size).value.size) <==> IsLoad(size)
    decreases 8 - size
  {
    if bitOff + bits - bitOff / 8 / size * size * 8 > size * 8 {
      CoverIsLoad(bitOff, bits, 2 * size);
    }
  }

  /** The aligned load of `size` bytes at or below the field reaches beyond its last bit. */
  predicate Reaches(bitOff: int, bits: nat, size: int)
    requires size > 0
  {
    bitOff + bits <= (bitOff / 8 - (bitOff / 8) % size + size) * 8
  }

  /** The load is the smallest one that covers the field, among those no smaller than its type. */
  lemma CoverIsSmallest(bitOff: int, bits: nat, size: nat)
    requires IsLoad(size)
    ensures
      var r := Cover(bitOff, bits, size);
      && (r.None? <==> forall s :: IsLoad(s) && s >= size ==> !Reaches(bitOff, bits, s))
      && (r.Some? ==> IsLoad(r.value.size) && Reaches(bitOff, bits, r.value.size)
                      && r.value.off == bitOff / 8 - (bitOff / 8) % r.value.size
                      && forall s :: IsLoad(s) && size <= s < r.value.size ==> !Reaches(bitOff, bits, s))
    decreases 8 - size
  {
    Euclid(bitOff / 8, size);
    if !Reaches(bitOff, bits, size) && size < 8 {
      CoverIsSmallest(bitOff, bits, 2 * size);
    }
  }

  /** BPF_CORE_READ_BITFIELD: load, shift left, shift right, with the relocated values.  The second shift is
      arithmetic for a signed field.  The value is not set when there is no load of this size. */
  function ReadField(mem: seq<u8>, off: int, size: int, lshift: int, rshift: int, isSigned: bool): Option<int>
    requires IsLoad(size) ==> 0 <= off <= off + size <= |mem| && lshift >= 0 && rshift >= 0
  {
    if IsLoad(size) then Some(Shifted(Word(mem[off..off + size]), lshift, rshift, isSigned)) else None
  }

  function Shifted(word: nat, lshift: nat, rshift: nat, isSigned: bool): int {
    var x := (word * Pow2(lshift)) % Pow2(64);
    (if isSigned && x >= Pow2(63) then x - Pow2(64) else x) / Pow2(rshift)
  }

  /** The bits of the field as a number, in two's complement for a signed field. */
  function FieldBits(mem: seq<u8>, bitOff: nat, bits: nat, isSigned: bool): int
    requires bits > 0
  {
    var v := (Word(mem) / Pow2(bitOff)) % Pow2(bits);
    if isSigned && v >= Pow2(bits - 1) then v - Pow2(bits) else v
  }

  /** The read yields the bits of the field, those from its bit offset on in the memory it is read from, if and
      only if the type of the field has the size of a load; otherwise it yields nothing. */
  lemma ReadsField(types: seq<Type>, ptrSize: nat, x: Reached, mem: seq<u8>)
    requires ValidBtf(types) && x.typ < |types| && x.bits.Some? && x.bits.value > 0 && x.off >= 0
    requires LoadOf(types, ptrSize, x).Some?
    requires
      var l := LoadOf(types, ptrSize, x).value;
      IsLoad(l.size) ==> l.off + l.size <= |mem|
    ensures var t := types[Skip(types, x.typ)]; t.Leaf? || t.Composite?
    ensures
      var off, size := FieldValue(types, ptrSize, ByteOffset, x).value, FieldValue(types, ptrSize, ByteSize, x).value;
      var lshift, rshift := FieldValue(types, ptrSize, LShift, x).value, FieldValue(types, ptrSize, RShift, x).value;
      var t := types[Skip(types, x.typ)];
      var isSigned := t.Leaf? && (t.kind == Int || t.kind == Enum || t.kind == Enum64) && t.isSigned;
      && (FieldValue(types, ptrSize, Signed, x) == Some(if isSigned then 1 else 0))
      && (IsLoad(size) ==> 0 <= off <= off + size <= |mem| && lshift >= 0 && rshift >= 0)
      && ReadField(mem, off, size, lshift, rshift, isSigned) ==
         if IsLoad(t.size) then Some(FieldBits(mem, x.off, x.bits.value, isSigned)) else None
  {
    hide Pow2;
    hide Word;
    hide Shifted;
    hide FieldBits;
    hide LoadOf;
    hide Skip;
    hide ValidBtf;
    var l := LoadOf(types, ptrSize, x).value;
    LoadCovers(types, ptrSize, x);
    ValuesOf(types, ptrSize, x);
    hide FieldValue;
    LoadIsInside(x.off, l);
    if IsLoad(l.size) {
      ShiftsRead(mem, x.off, l, FieldValue(types, ptrSize, Signed, x).value != 0);
    }
  }

  /** The values of a member in terms of its load and its type. */
  lemma ValuesOf(types: seq<Type>, ptrSize: nat, x: Reached)
    requires ValidBtf(types) && x.typ < |types| && x.bits.Some? && LoadOf(types, ptrSize, x).Some?
    ensures
      var l, t := LoadOf(types, ptrSize, x).value, types[Skip(types, x.typ)];
      var isSigned := t.Leaf? && (t.kind == Int || t.kind == Enum || t.kind == Enum64) && t.isSigned;
      && FieldValue(types, ptrSize, ByteOffset, x) == Some(l.off) && FieldValue(types, ptrSize, ByteSize, x) == Some(l.size)
      && FieldValue(types, ptrSize, Signed, x) == Some(if isSigned then 1 else 0)
      && FieldValue(types, ptrSize, LShift, x) == Some(64 - (x.off + l.bits - l.off * 8))
      && FieldValue(types, ptrSize, RShift, x) == Some(64 - l.bits)
  {
    hide LoadOf;
    hide Skip;
    hide ValidBtf;
    hide Ends;
    hide Visits;
    SignedIs(types[Skip(types, x.typ)]);
    hide IsSigned;
  }

  lemma SignedIs(t: Type)
    ensures IsSigned(t) <==> t.Leaf? && (t.kind == Int || t.kind == Enum || t.kind == Enum64) && t.isSigned
  {
    if t.Leaf? {
      match t.kind
      case Int => case Float => case Enum => case Enum64 =>
    }
  }

  /** A field that is no bit field has the size of its type.  Its bytes are its bits if and only if it starts at a
      byte or has no bytes. */
  lemma PlainBytesIff(types: seq<Type>, ptrSize: nat, x: Reached)
    requires ValidBtf(types) && x.typ < |types| && (x.bits.None? || x.bits.value == 0) && x.off >= 0
    ensures FieldValue(types, ptrSize, ByteSize, x) == SizeOf(types, ptrSize, Skip(types, x.typ))
    ensures FieldValue(types, ptrSize, ByteOffset, x).Some? <==> FieldValue(types, ptrSize, ByteSize, x).Some?
    ensures FieldValue(types, ptrSize, ByteOffset, x).Some? ==>
      var off, size := FieldValue(types, ptrSize, ByteOffset, x).value, FieldValue(types, ptrSize, ByteSize, x).value;
      && off >= 0 && size >= 0
      && ((forall mem: seq<u8> :: off + size <= |mem| ==> HoldsBits(mem, off, size, x.off))
          <==> x.off % 8 == 0 || size == 0)
  {
    hide Pow2;
    hide Word;
    hide ValidBtf;
    hide Skip;
    hide ResolveSize;
    if l :| LoadOf(types, ptrSize, x) == Some(l) {
      if x.off % 8 == 0 || l.size == 0 {
        forall mem: seq<u8> | l.off + l.size <= |mem|
          ensures HoldsBits(mem, l.off, l.size, x.off)
        {
          BytesHoldBits(mem, l.off, l.size, x.off);
        }
      } else {
        var mem := BitBefore(l.off, l.size, x.off);
        assert !HoldsBits(mem, l.off, l.size, x.off);
      }
    }
  }

  /** The `size` bytes at `off` are the bits from `bitOff` on. */
  ghost predicate HoldsBits(mem: seq<u8>, off: nat, size: nat, bitOff: nat)
    requires off + size <= |mem|
  {
    Word(mem[off..off + size]) == (Word(mem) / Pow2(bitOff)) % Pow2(8 * size)
  }

  lemma BytesHoldBits(mem: seq<u8>, off: nat, size: nat, bitOff: nat)
    requires off + size <= |mem| && (bitOff == 8 * off || size == 0)
    ensures HoldsBits(mem, off, size, bitOff)
  {
    if size == 0 {
      assert mem[off..off] == [] && Pow2(0) == 1;
    } else {
      hide Pow2;
      hide Word;
      BytesAbove(mem, off);
      BytesBelow(mem[off..], size);
      assert mem[off..][..size] == mem[off..off + size];
    }
  }

  lemma BytesAbove(mem: seq<u8>, off: nat)
    requires off <= |mem|
    ensures Word(mem) / Pow2(8 * off) == Word(mem[off..])
  {
    hide Pow2;
    hide Word;
    Bitfield.WordSplit(mem, off);
    DivMod(Word(mem), Pow2(8 * off), Word(mem[off..]), Word(mem[..off]));
  }

  lemma BytesBelow(mem: seq<u8>, size: nat)
    requires size <= |mem|
    ensures Word(mem[..size]) == Word(mem) % Pow2(8 * size)
  {
    hide Pow2;
    hide Word;
    Bitfield.WordSplit(mem, size);
    DivMod(Word(mem), Pow2(8 * size), Word(mem[size..]), Word(mem[..size]));
  }

  /** A memory whose only bit lies in the first byte of the field, below the field. */
  lemma BitBefore(off: nat, size: nat, bitOff: nat) returns (mem: seq<u8>)
    requires size > 0 && 8 * off < bitOff
    ensures off + size <= |mem| && !HoldsBits(mem, off, size, bitOff)
  {
    var zeros: seq<u8> := seq(off, _ => 0);
    var tail: seq<u8> := seq(size - 1, _ => 0);
    mem := zeros + ([1] + tail);
    ZerosWord(zeros);
    ZerosWord(tail);
    assert ([1] + tail)[1..] == tail;
    assert Word([1] + tail) == 1;
    assert mem[off..off + size] == [1] + tail;
    Bitfield.WordSplit(mem, off);
    assert mem[off..] == [1] + tail && mem[..off] == zeros;
    Pow2Add(8 * off, bitOff - 8 * off - 1);
    Pow2Double(bitOff - 1);
    Pow2Monotone(8 * off, bitOff - 1);
    DivMod(Pow2(8 * off), Pow2(bitOff), 0, Pow2(8 * off));
    DivMod(0, Pow2(8 * size), 0, 0);
  }

  lemma {:induction false} ZerosWord(zeros: seq<u8>)
    requires forall i :: 0 <= i < |zeros| ==> zeros[i] == 0
    ensures Word(zeros) == 0
  {
    if zeros != [] {
      ZerosWord(zeros[1..]);
    }
  }

  /** A member that is no bit field, read as one: the shifts select its bytes, wherever it can be loaded. */
  lemma ReadsPlainMember(types: seq<Type>, ptrSize: nat, x: Reached, mem: seq<u8>)
    requires ValidBtf(types) && x.typ < |types| && x.bits == Some(0) && x.off >= 0 && x.off % 8 == 0
    requires LoadOf(types, ptrSize, x).Some?
    requires
      var size := FieldValue(types, ptrSize, ByteSize, x).value;
      IsLoad(size) && x.off / 8 + size <= |mem|
    ensures
      var off, size := FieldValue(types, ptrSize, ByteOffset, x).value, FieldValue(types, ptrSize, ByteSize, x).value;
      var lshift, rshift := FieldValue(types, ptrSize, LShift, x).value, FieldValue(types, ptrSize, RShift, x).value;
      var t := types[Skip(types, x.typ)];
      var isSigned := t.Leaf? && (t.kind == Int || t.kind == Enum || t.kind == Enum64) && t.isSigned;
      && FieldValue(types, ptrSize, Signed, x) == Some(if isSigned then 1 else 0)
      && 0 <= off <= off + size <= |mem| && lshift >= 0 && rshift >= 0
      && ReadField(mem, off, size, lshift, rshift, isSigned) == Some(FieldBits(mem, x.off, 8 * size, isSigned))
  {
    hide Pow2;
    hide Word;
    hide Shifted;
    hide FieldBits;
    hide Skip;
    hide ValidBtf;
    hide ResolveSize;
    var l := LoadOf(types, ptrSize, x).value;
    ValuesOf(types, ptrSize, x);
    hide FieldValue;
    ShiftsRead(mem, x.off, l, FieldValue(types, ptrSize, Signed, x).value != 0);
  }

  lemma LoadCovers(types: seq<Type>, ptrSize: nat, x: Reached)
    requires ValidBtf(types) && x.typ < |types| && x.bits.Some? && x.bits.value > 0
    requires LoadOf(types, ptrSize, x).Some?
    ensures
      var l := LoadOf(types, ptrSize, x).value;
      && l.bits == x.bits.value && l.size > 0 && l.off % l.size == 0
      && l.off * 8 <= x.off && x.off + l.bits <= (l.off + l.size) * 8
    ensures
      var t := types[Skip(types, x.typ)];
      (t.Leaf? || t.Composite?) && (IsLoad(LoadOf(types, ptrSize, x).value.size) <==> IsLoad(t.size))
  {
    hide Cover;
    hide Skip;
    var t := Skip(types, x.typ);
    CoverCovers(x.off, x.bits.value, types[t].size);
    CoverIsLoad(x.off, x.bits.value, types[t].size);
  }

  lemma LoadIsInside(bitOff: nat, l: Load)
    requires l.size > 0 && l.bits > 0 && l.off % l.size == 0 && bitOff + l.bits <= (l.off + l.size) * 8
    ensures l.off >= 0
  {
    Euclid(l.off, l.size);
    if l.off < 0 {
      var q := l.off / l.size;
      MulLe(q, -1, l.size);
    }
  }

  lemma ShiftsRead(mem: seq<u8>, bitOff: nat, l: Load, isSigned: bool)
    requires IsLoad(l.size) && 0 <= l.off && l.off + l.size <= |mem| && l.bits > 0
    requires l.off * 8 <= bitOff && bitOff + l.bits <= (l.off + l.size) * 8
    ensures
      var lshift, rshift := 64 - (bitOff + l.bits - l.off * 8), 64 - l.bits;
      && lshift >= 0 && rshift >= 0
      && ReadField(mem, l.off, l.size, lshift, rshift, isSigned) == Some(FieldBits(mem, bitOff, l.bits, isSigned))
  {
    hide Pow2;
    hide Word;
    var inner := bitOff - l.off * 8;
    var lshift := 64 - (inner + l.bits);
    var word, rest := mem[l.off..l.off + l.size], mem[l.off..];
    Pow2Add(inner, l.bits);
    Pow2Add(inner + l.bits, lshift);
    Pow2Add(lshift, inner);
    Bitfield.ShiftsExtract(Word(word), Pow2(inner), Pow2(l.bits), Pow2(lshift));
    Bitfield.HighBytesIgnored(rest, l.size, inner, l.bits);
    assert rest[..l.size] == word;
    LowBytesSkipped(mem, l.off, inner);
    ArithmeticShift((Word(word) * Pow2(lshift)) % Pow2(64), l.bits);
  }

  /** An arithmetic right shift of a 64-bit word keeps its upper bits, in two's complement. */
  lemma ArithmeticShift(x: nat, bits: nat)
    requires 1 <= bits <= 64 && x < Pow2(64)
    ensures
      var v := x / Pow2(64 - bits);
      (if x >= Pow2(63) then x - Pow2(64) else x) / Pow2(64 - bits) == if v >= Pow2(bits - 1) then v - Pow2(bits) else v
  {
    Pow2Add(bits, 64 - bits);
    Pow2Add(bits - 1, 64 - bits);
    hide Pow2;
    ShiftKeepsSign(x, Pow2(bits - 1), Pow2(bits), Pow2(64 - bits));
  }

  lemma ShiftKeepsSign(x: nat, half: nat, all: nat, r: nat)
    requires r > 0
    ensures
      var v := x / r;
      (if x >= half * r then x - all * r else x) / r == if v >= half then v - all else v
  {
    var v := x / r;
    Euclid(x, r);
    if v >= half {
      MulLe(half, v, r);
      MulDist(v - all, all, r);
      DivMod(x - all * r, r, v - all, x % r);
    } else {
      MulLe(v + 1, half, r);
      MulDist(v, 1, r);
    }
  }

  /** Skipping whole bytes is dividing by a power of two. */
  lemma LowBytesSkipped(mem: seq<u8>, off: nat, inner: nat)
    requires off <= |mem|
    ensures Word(mem) / Pow2(off * 8 + inner) == Word(mem[off..]) / Pow2(inner)
  {
    Bitfield.WordSplit(mem, off);
    DivMod(Word(mem), Pow2(8 * off), Word(mem[off..]), Word(mem[..off]));
    Pow2Add(8 * off, inner);
    Bitfield.DivTwice(Word(mem), Pow2(8 * off), Pow2(inner));
  }
}

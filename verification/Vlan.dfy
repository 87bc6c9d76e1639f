/**
  VLAN tags (clause 9 of IEEE 802.1Q): pushing and popping the outermost tag in
  place, and parsing an Ethernet header with up to two tags.
 */
module Vlan {
  import opened Bytes

  const ETH_HLEN := 14
  const VLAN_HLEN := 4
  const VLAN_MAX_DEPTH := 2
  const ETH_P_8021Q := 0x8100
  const ETH_P_8021AD := 0x88A8

  type u16 = x: int | 0 <= x < 0x1_0000

  /** A 16-bit number in network byte order. */
  function Be16(data: seq<u8>, at: nat): u16
    requires at + 2 <= |data|
  {
    data[at] as int * 256 + data[at + 1]
  }

  function Be16Bytes(v: u16): (r: seq<u8>)
    ensures |r| == 2 && Be16(r, 0) == v
  {
    [v / 256, v % 256]
  }

  /** proto_is_vlan */
  predicate ProtoIsVlan(proto: u16) { proto == ETH_P_8021Q || proto == ETH_P_8021AD }

  /** A frame with a tag inserted after the addresses, and with one removed from there. */
  function Tagged(data: seq<u8>, tci: u16): seq<u8>
    requires |data| >= ETH_HLEN
  {
    data[..12] + Be16Bytes(ETH_P_8021Q) + Be16Bytes(tci) + data[12..]
  }

  function Untagged(data: seq<u8>): seq<u8>
    requires |data| >= ETH_HLEN + VLAN_HLEN
  {
    data[..12] + data[16..]
  }

  /** The stores of a push: room in front, then the header, the tag with the old type, and the VLAN type. */
  lemma PushStores(room: seq<u8>, was: seq<u8>, tci: u16)
    requires |room| == VLAN_HLEN && |was| >= ETH_HLEN
    ensures
      var moved := Write(room + was, 0, was[..ETH_HLEN]);
      && moved[12..14] == was[12..14]
      && Write(Write(moved, ETH_HLEN, Be16Bytes(tci) + was[12..14]), 12, Be16Bytes(ETH_P_8021Q)) == Tagged(was, tci)
  {
    hide Be16Bytes;
    var typ, tag := Be16Bytes(ETH_P_8021Q), Be16Bytes(tci);
    HeaderMoved(room, was);
    assert (was[..ETH_HLEN] + was[10..])[12..14] == was[12..14];
    hide Write;
    TagStored(was, tag);
    TypeStored(was, tag + was[12..], typ);
    assert was[..12] + typ + (tag + was[12..]) == was[..12] + typ + tag + was[12..];
  }

  lemma HeaderMoved(room: seq<u8>, was: seq<u8>)
    requires |room| == VLAN_HLEN && |was| >= ETH_HLEN
    ensures Write(room + was, 0, was[..ETH_HLEN]) == was[..ETH_HLEN] + was[10..]
  {
    assert (room + was)[ETH_HLEN..] == was[10..];
  }

  lemma TagStored(was: seq<u8>, tag: seq<u8>)
    requires |was| >= ETH_HLEN && |tag| == 2
    ensures Write(was[..ETH_HLEN] + was[10..], ETH_HLEN, tag + was[12..14]) == was[..ETH_HLEN] + (tag + was[12..])
  {
    var moved := was[..ETH_HLEN] + was[10..];
    assert moved[..ETH_HLEN] == was[..ETH_HLEN] && moved[ETH_HLEN + 4..] == was[14..];
    assert tag + was[12..] == tag + was[12..14] + was[14..];
  }

  lemma TypeStored(was: seq<u8>, rest: seq<u8>, typ: seq<u8>)
    requires |was| >= ETH_HLEN && |typ| == 2
    ensures Write(was[..ETH_HLEN] + rest, 12, typ) == was[..12] + typ + rest
  {
    var frame := was[..ETH_HLEN] + rest;
    assert frame[..12] == was[..12] && frame[ETH_HLEN..] == rest;
  }

  /** The stores of a pop: the header again, over what followed it, with the type the tag announced. */
  lemma PopStores(was: seq<u8>)
    requires |was| >= ETH_HLEN + VLAN_HLEN
    ensures Write(Write(was[VLAN_HLEN..], 0, was[..ETH_HLEN]), 12, was[16..18]) == Untagged(was)
  {
    assert Write(was[VLAN_HLEN..], 0, was[..ETH_HLEN]) == was[..ETH_HLEN] + was[18..];
    assert was[16..18] + was[18..] == was[16..];
  }

  /** A packet in a buffer: the frame occupies `buf[start..end]`, what lies before it is headroom. */
  class Packet {
    const buf: array<u8>
    var start: nat
    var end: nat

    constructor (buf: array<u8>, start: nat, end: nat)
      requires start + ETH_HLEN <= end <= buf.Length
      ensures this.buf == buf && this.start == start && this.end == end
    {
      this.buf, this.start, this.end := buf, start, end;
    }

    ghost predicate Valid()
      reads this
    {
      start + ETH_HLEN <= end <= buf.Length
    }

    function Data(): seq<u8>
      reads this, buf
      requires Valid()
    {
      buf[start..end]
    }

    /** bpf_xdp_adjust_head: move the start of the frame, within the buffer and leaving an Ethernet header.
        The kernel may refuse for reasons of its own, which `granted` stands for. */
    method AdjustHead(delta: int, granted: bool) returns (ok: bool)
      requires Valid()
      modifies this`start
      ensures Valid() && ok == (granted && 0 <= old(start) + delta && old(start) + delta + ETH_HLEN <= end)
      ensures start == if ok then old(start) + delta else old(start)
    {
      ok := granted && 0 <= start + delta && start + delta + ETH_HLEN <= end;
      if ok {
        start := start + delta;
      }
    }

    method Put(off: nat, bytes: seq<u8>)
      requires Valid() && off + |bytes| <= end - start
      modifies buf
      ensures Data() == Write(old(Data()), off, bytes)
    {
      ghost var was := Data();
      for i := 0 to |bytes|
        invariant Data() == Write(was, off, bytes[..i])
      {
        ghost var before := Data();
        buf[start + off + i] := bytes[i];
        assert Data() == before[off + i := bytes[i]];
        WriteSnoc(was, off, bytes, i);
      }
      assert bytes[..|bytes|] == bytes;
    }

    /** vlan_tag_push. The bounds checks repeated after the head has moved cannot fail. */
    method TagPush(vlid: int, granted: bool) returns (ok: bool)
      requires Valid()
      modifies this`start, buf
      ensures Valid() && end == old(end)
      ensures ok == (granted && old(start) >= VLAN_HLEN)
      ensures ok ==> start == old(start) - VLAN_HLEN && Data() == Tagged(old(Data()), vlid % 0x1_0000)
      ensures !ok ==> start == old(start) && Data() == old(Data())
    {
      ghost var was := Data();
      var eth := buf[start..start + ETH_HLEN];
      ok := AdjustHead(-VLAN_HLEN, granted);
      if !ok {
        return;
      }
      ghost var room := Data()[..VLAN_HLEN];
      assert Data() == room + was && eth == was[..ETH_HLEN];
      PushStores(room, was, vlid % 0x1_0000);
      Put(0, eth);
      var proto := Data()[12..ETH_HLEN];
      Put(ETH_HLEN, Be16Bytes(vlid % 0x1_0000) + proto);
      Put(12, Be16Bytes(ETH_P_8021Q));
    }

    /** vlan_tag_pop: the tag of the outermost VLAN header, or -1. */
    method TagPop(granted: bool) returns (vlid: int)
      requires Valid()
      modifies this`start, buf
      ensures Valid() && end == old(end)
      ensures
        var was := old(Data());
        if granted && ProtoIsVlan(Be16(was, 12)) && |was| >= ETH_HLEN + VLAN_HLEN
        then vlid == Be16(was, 14) && start == old(start) + VLAN_HLEN && Data() == Untagged(was)
        else vlid == -1 && start == old(start) && Data() == was
    {
      ghost var was := Data();
      if !ProtoIsVlan(Be16(buf[start + 12..start + 14], 0)) {
        return -1;
      }
      if start + ETH_HLEN + VLAN_HLEN > end {
        return -1;
      }
      vlid := Be16(buf[start + 14..start + 16], 0);
      var proto := buf[start + 16..start + 18];
      var eth := buf[start..start + ETH_HLEN];
      var ok := AdjustHead(VLAN_HLEN, granted);
      if !ok {
        return -1;
      }
      assert Data() == was[VLAN_HLEN..] && eth == was[..ETH_HLEN] && proto == was[16..18];
      PopStores(was);
      Put(0, eth);
      Put(12, proto);
    }
  }

  /** Popping what was pushed restores every byte of the frame; it returns the argument of the push exactly
      when that fits the 16 bits of the tag (all of them: priority bits are not masked off). */
  lemma PopUndoesPush(data: seq<u8>, vlid: int)
    requires |data| >= ETH_HLEN
    ensures
      var t := Tagged(data, vlid % 0x1_0000);
      && ProtoIsVlan(Be16(t, 12)) && |t| >= ETH_HLEN + VLAN_HLEN && Untagged(t) == data
      && Be16(t, 14) == vlid % 0x1_0000
      && (Be16(t, 14) == vlid <==> 0 <= vlid < 0x1_0000)
  {
    var tci := vlid % 0x1_0000;
    var t := Tagged(data, tci);
    assert t[12] == Be16Bytes(ETH_P_8021Q)[0] && t[13] == Be16Bytes(ETH_P_8021Q)[1];
    assert t[14] == Be16Bytes(tci)[0] && t[15] == Be16Bytes(tci)[1];
    assert t[..12] == data[..12] && t[16..] == data[12..];
  }

  /** What a pop returns is the identifier that the parser reports for the tag, its low 12 bits, if and only
      if the tag carries no priority bits. */
  lemma PopIsIdentifierIff(data: seq<u8>, tci: u16)
    requires |data| >= ETH_HLEN
    ensures
      var t := Tagged(data, tci);
      Be16(t, 14) == tci && (Be16(t, 14) == Be16(t, 14) % 0x1000 <==> tci < 0x1000)
  {
    TaggedLayers(data, tci);
  }

  /** Priority 1 and identifier 1: the pop returns 8193. */
  lemma PriorityIsReturned(data: seq<u8>)
    requires |data| >= ETH_HLEN
    ensures
      var t := Tagged(data, 0x2001);
      Be16(t, 14) == 0x2001 && Be16(t, 14) % 0x1000 == 1
  {
    TaggedLayers(data, 0x2001);
  }

  /** The bytes of the two types that announce a tag, and of a tag that is pushed. */
  lemma TagBytes(data: seq<u8>, tci: u16)
    requires |data| >= ETH_HLEN
    ensures ProtoIsVlan(Be16(data, 12)) <==> data[12..14] == [0x81, 0x00] || data[12..14] == [0x88, 0xA8]
    ensures Tagged(data, tci) == data[..12] + [0x81, 0x00, tci / 256, tci % 256] + data[12..]
  {
    assert data[12..14] == [data[12], data[13]];
    assert Be16Bytes(ETH_P_8021Q) == [0x81, 0x00];
  }

  // ---------- parsing ----------

  /** VLAN header `k` of the frame at `pos` is announced by the type before it and lies inside the packet. */
  predicate HasTag(data: seq<u8>, pos: nat, k: nat)
    requires pos + 14 + 4 * k <= |data|
  {
    ProtoIsVlan(Be16(data, pos + 12 + 4 * k)) && pos + 14 + 4 * k + 4 <= |data|
  }

  /** Exactly `d` VLAN headers are parsed. */
  ghost predicate ParsedDepth(data: seq<u8>, pos: nat, d: nat) {
    && d <= VLAN_MAX_DEPTH && pos + 14 + 4 * d <= |data|
    && (forall k :: 0 <= k < d ==> HasTag(data, pos, k))
    && (d < VLAN_MAX_DEPTH ==> !HasTag(data, pos, d))
  }

  /** parse_ethhdr_vlan: the type found after the parsed headers, the position there and the identifiers;
      -1 when there is no room for an Ethernet header. */
  method ParseEthhdrVlan(data: seq<u8>, pos: nat, vlans: array?<nat>)
    returns (proto: int, next: nat, ghost depth: nat)
    requires pos <= |data| && (vlans != null ==> vlans.Length == VLAN_MAX_DEPTH)
    modifies vlans
    ensures proto == -1 <==> pos + ETH_HLEN > |data|
    ensures proto == -1 ==> next == pos && (vlans != null ==> vlans[..] == old(vlans[..]))
    ensures proto != -1 ==>
      && ParsedDepth(data, pos, depth)
      && next == pos + ETH_HLEN + VLAN_HLEN * depth && proto == Be16(data, next - 2)
    ensures proto != -1 && vlans != null ==>
      && (forall k :: 0 <= k < depth ==> vlans[k] == Be16(data, pos + 14 + 4 * k) % 0x1000)
      && (forall k :: depth <= k < VLAN_MAX_DEPTH ==> vlans[k] == old(vlans[k]))
  {
    if pos + ETH_HLEN > |data| {
      return -1, pos, 0;
    }
    next := pos + ETH_HLEN;
    proto := Be16(data, pos + 12);
    depth := 0;
    var i := 0;
    while i < VLAN_MAX_DEPTH
      invariant 0 <= i == depth <= VLAN_MAX_DEPTH
      invariant next == pos + ETH_HLEN + VLAN_HLEN * i <= |data| && proto == Be16(data, next - 2)
      invariant forall k :: 0 <= k < i ==> pos + 14 + 4 * k <= |data| && HasTag(data, pos, k)
      invariant vlans != null ==> forall k :: 0 <= k < i ==> vlans[k] == Be16(data, pos + 14 + 4 * k) % 0x1000
      invariant vlans != null ==> forall k :: i <= k < VLAN_MAX_DEPTH ==> vlans[k] == old(vlans[k])
    {
      if !ProtoIsVlan(proto) {
        break;
      }
      if next + VLAN_HLEN > |data| {
        break;
      }
      proto := Be16(data, next + 2);
      if vlans != null {
        vlans[i] := Be16(data, next) % 0x1000;
      }
      next := next + VLAN_HLEN;
      i := i + 1;
      depth := depth + 1;
    }
  }

  /** The frame after pushing the tags one by one, the last one outermost. */
  function PushAll(data: seq<u8>, tags: seq<u16>): (r: seq<u8>)
    requires |data| >= ETH_HLEN
    ensures |r| == |data| + 4 * |tags|
  {
    if tags == [] then data else Tagged(PushAll(data, tags[..|tags| - 1]), tags[|tags| - 1])
  }

  function Min(a: nat, b: nat): nat { if a < b then a else b }

  /** The headers of a frame with pushed tags: the tags from the outermost to the innermost, then the frame's own type. */
  lemma {:induction false} PushedLayout(data: seq<u8>, tags: seq<u16>, k: nat)
    requires |data| >= ETH_HLEN && k <= |tags|
    ensures
      var t := PushAll(data, tags);
      && Be16(t, 12 + 4 * k) == (if k < |tags| then ETH_P_8021Q else Be16(data, 12))
      && (k < |tags| ==> Be16(t, 14 + 4 * k) == tags[|tags| - 1 - k])
    decreases |tags|
  {
    if tags != [] {
      hide Tagged;
      hide Be16;
      var n := |tags| - 1;
      var inner := PushAll(data, tags[..n]);
      var t := PushAll(data, tags);
      TaggedLayers(inner, tags[n]);
      if k > 0 {
        PushedLayout(data, tags[..n], k - 1);
        Shifted(t, inner, 8 + 4 * k);
        if k < |tags| {
          Shifted(t, inner, 10 + 4 * k);
        }
      }
    }
  }

  lemma TaggedLayers(inner: seq<u8>, tci: u16)
    requires |inner| >= ETH_HLEN
    ensures
      var t := Tagged(inner, tci);
      |t| == |inner| + 4 && Be16(t, 12) == ETH_P_8021Q && Be16(t, 14) == tci && t[16..] == inner[12..]
  {
    var t := Tagged(inner, tci);
    assert t[12] == Be16Bytes(ETH_P_8021Q)[0] && t[13] == Be16Bytes(ETH_P_8021Q)[1];
    assert t[14] == Be16Bytes(tci)[0] && t[15] == Be16Bytes(tci)[1];
  }

  /** Below the outermost tag a frame is the inner frame, four bytes further on. */
  lemma Shifted(t: seq<u8>, inner: seq<u8>, at: nat)
    requires |t| >= 16 && |inner| >= 12 && t[16..] == inner[12..] && 12 <= at && at + 2 <= |inner|
    ensures |t| == |inner| + 4 && Be16(t, at + 4) == Be16(inner, at)
  {
    assert |t[16..]| == |inner[12..]|;
    assert t[16..][at - 12] == t[at + 4] && inner[12..][at - 12] == inner[at];
    assert t[16..][at - 11] == t[at + 5] && inner[12..][at - 11] == inner[at + 1];
  }

  /** Any number of pushes on an untagged frame: the parser reports the outermost tags, at most two,
      and stops behind them at the type found there. */
  lemma ParseAfterPushes(data: seq<u8>, tags: seq<u16>, depth: nat)
    requires |data| >= ETH_HLEN && !ProtoIsVlan(Be16(data, 12))
    requires ParsedDepth(PushAll(data, tags), 0, depth)
    ensures depth == Min(|tags|, 2)
    ensures Be16(PushAll(data, tags), 12 + 4 * depth) == if |tags| <= 2 then Be16(data, 12) else ETH_P_8021Q
    ensures forall k :: 0 <= k < depth ==> Be16(PushAll(data, tags), 14 + 4 * k) == tags[|tags| - 1 - k]
  {
    var t := PushAll(data, tags);
    forall k | 0 <= k <= |tags|
      ensures Be16(t, 12 + 4 * k) == (if k < |tags| then ETH_P_8021Q else Be16(data, 12))
      ensures k < |tags| ==> Be16(t, 14 + 4 * k) == tags[|tags| - 1 - k]
    {
      PushedLayout(data, tags, k);
    }
    assert depth > |tags| ==> HasTag(t, 0, |tags|);
    assert depth < Min(|tags|, VLAN_MAX_DEPTH) ==> !HasTag(t, 0, depth);
  }

  /** A frame with one service tag (type 0x88A8) is popped like any other and parsed one level deep. */
  lemma ServiceTag(data: seq<u8>, depth: nat)
    requires |data| >= 18 && data[12..14] == [0x88, 0xA8] && data[16..18] != [0x81, 0x00] && data[16..18] != [0x88, 0xA8]
    ensures ProtoIsVlan(Be16(data, 12)) && Untagged(data) == data[..12] + data[16..]
    ensures ParsedDepth(data, 0, depth) <==> depth == 1
  {
    TagBytes(data, 0);
    TagBytes(data[4..], 0);
    assert data[4..][12..14] == data[16..18] && Be16(data[4..], 12) == Be16(data, 16);
    assert HasTag(data, 0, 0) && !HasTag(data, 0, 1);
  }
}

/** VLAN tags put into and taken out of a packet in place. The packet lies in a larger buffer; the
    bytes directly before it may hold metadata that has to move along. */
module Vlan {
  import opened Bytes

  const ETH_HLEN := 14
  const ETH_TLEN := 2
  const ETH_ALEN := 6
  const VLAN_HLEN := 4
  const ETH_P_802_3_MIN := 0x600
  const ETH_P_802_3 := 1
  const ETH_P_802_2 := 4
  const NET_SKB_PAD := 32

  datatype Result = Ok | Invalid | NoMemory

  /** ALIGN(n, NET_SKB_PAD) */
  function AlignUp(n: nat): (r: nat)
    ensures n <= r < n + NET_SKB_PAD && r % NET_SKB_PAD == 0
  {
    (n + NET_SKB_PAD - 1) / NET_SKB_PAD * NET_SKB_PAD
  }

  function Tag(proto: nat, tci: nat): (t: seq<byte>)
    requires proto < 0x1_0000 && tci < 0x1_0000
    ensures |t| == VLAN_HLEN
  {
    Pack16(proto) + Pack16(tci)
  }

  function InsertAt(frame: seq<byte>, i: nat, b: seq<byte>): (r: seq<byte>)
    requires i <= |frame|
  {
    frame[..i] + b + frame[i..]
  }

  function RemoveAt(frame: seq<byte>, i: nat, n: nat): (r: seq<byte>)
    requires i + n <= |frame|
  {
    frame[..i] + frame[i + n..]
  }

  /** The protocol of the packet inside the tag: an EtherType, or a length followed by Novell's or LLC's marker. */
  function EncapProto(proto: nat, next: nat): (p: nat) {
    if proto >= ETH_P_802_3_MIN then proto
    else if next == 0xFFFF then ETH_P_802_3
    else ETH_P_802_2
  }

  /** t is h with the bytes at [lo, hi) taken from `delta` bytes before. */
  ghost predicate Shifted(t: seq<byte>, h: seq<byte>, lo: nat, hi: nat, delta: int)
    requires delta <= lo <= hi <= |h| && hi - delta <= |h|
  {
    && |t| == |h|
    && forall i {:trigger t[i]} | 0 <= i < |t| :: t[i] == if lo <= i < hi then h[i - delta] else h[i]
  }

  /** t is h with a tag pushed into the packet at offset d: its first k bytes and the m bytes before them have
      moved up front by four. */
  ghost predicate Tagged(t: seq<byte>, h: seq<byte>, d: nat, k: nat, m: nat, tag: seq<byte>)
    requires |tag| == VLAN_HLEN && m + VLAN_HLEN <= d && d + k <= |h|
  {
    && |t| == |h|
    && forall i {:trigger t[i]} | 0 <= i < |t| ::
         t[i] == if d - 4 - m <= i < d - 4 + k then h[i + 4]
                 else if d - 4 + k <= i < d + k then tag[i - (d - 4 + k)]
                 else h[i]
  }

  /** t is h with the bytes of b at offset `off`. */
  ghost predicate Written(t: seq<byte>, h: seq<byte>, off: nat, b: seq<byte>)
    requires off + |b| <= |h|
  {
    && |t| == |h|
    && forall i {:trigger t[i]} | 0 <= i < |t| :: t[i] == if off <= i < off + |b| then b[i - off] else h[i]
  }

  lemma ShortFrame(t: seq<byte>, h: seq<byte>, d: nat, len: nat, k: nat, tag: seq<byte>)
    requires |tag| == VLAN_HLEN <= d && k <= len && d + len <= |h|
    requires Written(t, h, d - 4 + k, tag)
    ensures t[d - 4..d + len][k..] == tag + h[d..d + len][k..]
    ensures t[d - 4..d + len][..k] == h[d - 4..d - 4 + k]
  {
    var p, q := t[d - 4..d + len][..k], h[d - 4..d - 4 + k];
    forall i | 0 <= i < |p| ensures p[i] == q[i] {
      assert p[i] == t[d - 4 + i];
    }
    var a, b := t[d - 4..d + len][k..], tag + h[d..d + len][k..];
    forall i | 0 <= i < |a| ensures a[i] == b[i] {
      assert a[i] == t[d - 4 + k + i];
      assert b[i] == if i < 4 then tag[i] else h[d + k + (i - 4)];
    }
  }

  /** The packet with the tag in it, and the bytes before it, in terms of the buffer before. */
  lemma TaggedFrame(t: seq<byte>, h: seq<byte>, d: nat, len: nat, k: nat, m: nat, tag: seq<byte>)
    requires |tag| == VLAN_HLEN && m + VLAN_HLEN <= d && k <= len && d + len <= |h|
    requires Tagged(t, h, d, k, m, tag)
    ensures t[d - 4..d + len] == InsertAt(h[d..d + len], k, tag)
    ensures t[d - 4 - m..d - 4] == h[d - m..d]
  {
    var a, b := t[d - 4..d + len], InsertAt(h[d..d + len], k, tag);
    forall i | 0 <= i < |a| ensures a[i] == b[i] {
      assert a[i] == t[d - 4 + i];
      assert b[i] == if i < k then h[d + i] else if i < k + 4 then tag[i - k] else h[d + (i - 4)];
    }
    var p, q := t[d - 4 - m..d - 4], h[d - m..d];
    forall i | 0 <= i < |p| ensures p[i] == q[i] {
      assert p[i] == t[d - 4 - m + i];
    }
  }

  /** The packet at offset d with the tag at bytes 12 to 15 taken out, and the m bytes before it. */
  lemma UntaggedFrame(t: seq<byte>, h: seq<byte>, d: nat, len: nat, m: nat)
    requires m <= d && 18 <= len && d + len <= |h|
    requires Shifted(t, h, d + 4 - m, d + 16, 4)
    ensures t[d + 4..d + len] == RemoveAt(h[d..d + len], 12, 4)
    ensures t[d + 4 - m..d + 4] == h[d - m..d]
  {
    var a, b := t[d + 4..d + len], RemoveAt(h[d..d + len], 12, 4);
    forall i | 0 <= i < |a| ensures a[i] == b[i] {
      assert a[i] == t[d + 4 + i];
      assert b[i] == if i < 12 then h[d + i] else h[d + (i + 4)];
    }
    var p, q := t[d + 4 - m..d + 4], h[d - m..d];
    forall i | 0 <= i < |p| ensures p[i] == q[i] {
      assert p[i] == t[d + 4 - m + i];
    }
  }

  lemma MovedIsShifted(h: seq<byte>, src: nat, delta: int, n: nat)
    requires 0 <= src + delta && src + n <= |h| && src + delta + n <= |h|
    ensures Shifted(Moved(h, src, src + delta, n), h, src + delta, src + delta + n, delta)
  {
  }

  /** A word of a packet in the buffer. */
  lemma FrameWord(h: seq<byte>, d: nat, len: nat, k: nat)
    requires d + len <= |h| && k + 2 <= len
    ensures Unpack16(h[d..d + len], k) == Unpack16(h, d + k)
  {
  }

  /** The same slice of a buffer that got more room in front. */
  lemma ShiftedSlice(h: seq<byte>, h': seq<byte>, shift: nat, lo: nat, hi: nat)
    requires shift <= |h'| && h'[shift..] == h && lo <= hi <= |h|
    ensures h'[lo + shift..hi + shift] == h[lo..hi]
  {
    var a, b := h'[lo + shift..hi + shift], h[lo..hi];
    forall i | 0 <= i < |a| ensures a[i] == b[i] {
      assert a[i] == h'[lo + shift + i] == h'[shift..][lo + i];
    }
  }

  /** Taking out the tag that was put in. */
  lemma RemoveInserted(f: seq<byte>, proto: nat, tci: nat)
    requires 14 <= |f| && proto < 0x1_0000 && tci < 0x1_0000
    ensures var t := InsertAt(f, 12, Tag(proto, tci));
            && RemoveAt(t, 12, 4) == f
            && Unpack16(t, 12) == proto && Unpack16(t, 14) == tci && Unpack16(t, 16) == Unpack16(f, 12)
  {
    var t := InsertAt(f, 12, Tag(proto, tci));
    assert t[12..16] == Tag(proto, tci);
    assert t[12] == proto / 256 && t[13] == proto % 256 && t[14] == tci / 256 && t[15] == tci % 256;
    assert t[16] == f[12] && t[17] == f[13];
  }

  lemma SameSlice(t: seq<byte>, h: seq<byte>, e: nat, lo: nat, hi: nat)
    requires e <= |t| && e <= |h| && t[..e] == h[..e] && lo <= hi <= e
    ensures t[lo..hi] == h[lo..hi]
  {
    assert t[lo..hi] == t[..e][lo..hi] && h[lo..hi] == h[..e][lo..hi];
  }

  /** The word at an offset, 0 past the end. */
  function WordAt(h: seq<byte>, off: nat): (v: nat)
    ensures v < 0x1_0000
  {
    if off + 2 <= |h| then Unpack16(h, off) else 0
  }

  class Skb {
    /** The buffer, skb->head up to its end. */
    var head: seq<byte>
    /** Offset of the packet in the buffer, and its length. */
    var data: nat
    var len: nat
    /** Offset of the MAC header, where set. */
    var macSet: bool
    var mac: int
    var metaLen: nat
    var protocol: nat

    ghost predicate Valid()
      reads this
    {
      && data + len <= |head|
      && protocol < 0x1_0000
      && (MetadataInPlace() ==> metaLen <= data)
    }

    ghost function Frame(): (s: seq<byte>)
      reads this
      requires data + len <= |head|
    {
      head[data..data + len]
    }

    /** The metaLen bytes directly before the packet. */
    ghost function Metadata(): (s: seq<byte>)
      reads this
      requires metaLen <= data <= |head|
    {
      head[data - metaLen..data]
    }

    /** What is left of the buffer behind the packet. */
    ghost function Tailroom(): (n: int)
      reads this
    {
      |head| - data - len
    }

    /** Metadata, if any, ends at the MAC header and that is where the packet begins. */
    ghost predicate MetadataInPlace()
      reads this
    {
      macSet && mac == data
    }

    method Store16(off: nat, v: nat)
      requires off + 2 <= |head| && v < 0x1_0000
      modifies this`head
      ensures head == old(head)[off := v / 256][off + 1 := v % 256]
    {
      head := head[off := v / 256][off + 1 := v % 256];
    }

    /** memmove of n bytes to where they lie `delta` bytes further on. */
    method MoveBytes(src: nat, delta: int, n: nat)
      requires 0 <= src + delta && src + n <= |head| && src + delta + n <= |head|
      modifies this`head
      ensures Shifted(head, old(head), src + delta, src + delta + n, delta)
    {
      MovedIsShifted(head, src, delta, n);
      head := Moved(head, src, src + delta, n);
    }

    /** skb_data_move: after the packet start moved by `delta`, move the first n packet bytes and the
        metadata along. Metadata that is not right before the old packet start, or has no room before the
        new one, is dropped. */
    method DataMove(delta: int, n: nat)
      requires macSet && mac + delta == data ==> metaLen <= mac
      requires data - delta >= 0 && data - delta + n <= |head| && data + n <= |head|
      modifies this`metaLen, this`head
      ensures delta == 0 ==> metaLen == old(metaLen) && head == old(head)
      ensures delta != 0 ==>
                && metaLen == (if macSet && mac + delta == data && old(metaLen) <= data then old(metaLen) else 0)
                && metaLen <= data && metaLen <= data - delta
                && Shifted(head, old(head), data - metaLen, data + n, delta)
    {
      if delta == 0 || (n == 0 && metaLen == 0) {
        return;
      }
      if metaLen > 0 {
        var metaEnd := mac;
        if macSet && metaEnd + delta == data && metaLen <= data {
          var meta := metaEnd - metaLen;
          MoveBytes(meta, delta, metaLen + n);
          return;
        }
        metaLen := 0;
      }
      MoveBytes(data - delta, delta, n);
    }

    /** __skb_cow over pskb_expand_head: a shared head, or one with too little room in front, is replaced by
        a copy with more room, whose new bytes are arbitrary. Whether the copy succeeds and whether it keeps
        the metadata mark is decided outside. */
    method Cow(headroom: nat, cloned: bool, memory: bool, keepsMeta: bool) returns (ok: bool)
      requires Valid()
      modifies this`head, this`data, this`mac, this`metaLen
      ensures Valid()
      ensures ok <==> memory || !(headroom > old(data) || cloned)
      ensures !ok ==> unchanged(this)
      ensures len == old(len) && Frame() == old(Frame()) && Tailroom() == old(Tailroom())
      ensures headroom <= old(data) ==> head == old(head) && data == old(data)
      ensures data >= old(data) && head[data - old(data)..] == old(head)
      ensures MetadataInPlace() <==> old(MetadataInPlace())
      ensures metaLen in {0, old(metaLen)}
      ensures keepsMeta || !(headroom > old(data) || cloned) ==> metaLen == old(metaLen)
      ensures MetadataInPlace() && metaLen > 0 ==> Metadata() == old(Metadata())
      ensures ok ==> headroom <= data
      // Just what is missing is added, in steps of the cache line.
      ensures data - old(data) < Max(0, headroom - old(data)) + NET_SKB_PAD && (data - old(data)) % NET_SKB_PAD == 0
    {
      var delta := if headroom > data then headroom - data else 0;
      if delta == 0 && !cloned {
        return true;
      }
      if !memory {
        return false;
      }
      ghost var h, d, m := head, data, metaLen;
      var nhead := AlignUp(delta);
      ExpandHead(nhead, keepsMeta);
      ShiftedSlice(h, head, nhead, d, d + len);
      if MetadataInPlace() {
        ShiftedSlice(h, head, nhead, d - m, d);
      }
      return true;
    }

    /** pskb_expand_head where there is memory: the same bytes with nhead more, arbitrary ones, in front. */
    method ExpandHead(nhead: nat, keepsMeta: bool)
      requires Valid()
      modifies this`head, this`data, this`mac, this`metaLen
      ensures data == old(data) + nhead && mac == old(mac) + nhead
      ensures metaLen == if keepsMeta then old(metaLen) else 0
      ensures |head| == |old(head)| + nhead && head[nhead..] == old(head)
    {
      assert |Repeated(nhead, 0)| == nhead;
      var front: seq<byte> :| |front| == nhead;
      head, data, mac := front + head, data + nhead, mac + nhead;
      if !keepsMeta {
        metaLen := 0;
      }
    }

    /** The part of __vlan_insert_inner_tag after room was made, for a MAC header of two bytes or more:
        skb_push, the move of the MAC header without its type, the two stores. */
    method PushTag(proto: nat, tci: nat, macLen: nat)
      requires Valid() && proto < 0x1_0000 && tci < 0x1_0000
      requires ETH_TLEN <= macLen <= len && VLAN_HLEN <= data
      requires macLen > ETH_TLEN && MetadataInPlace() ==> metaLen + VLAN_HLEN <= data
      modifies this
      ensures data == old(data) - VLAN_HLEN && len == old(len) + VLAN_HLEN
      ensures macSet == old(macSet) && protocol == old(protocol)
      ensures mac == if macSet then old(mac) - VLAN_HLEN else old(mac)
      ensures metaLen == if macLen == ETH_TLEN || old(MetadataInPlace()) then old(metaLen) else 0
      ensures Tailroom() == old(Tailroom())
      ensures Frame() == InsertAt(old(Frame()), macLen - 2, Tag(proto, tci))
      ensures macLen == ETH_TLEN ==> head[..data] == old(head)[..data]
      ensures macLen > ETH_TLEN && MetadataInPlace() ==> metaLen <= data && Metadata() == old(Metadata())
    {
      ghost var h, d := head, data;
      PushTagBytes(proto, tci, macLen);
      TaggedFrame(head, h, d, len - VLAN_HLEN, macLen - 2, if macLen == ETH_TLEN then 0 else metaLen,
                  Tag(proto, tci));
    }

    method PushTagBytes(proto: nat, tci: nat, macLen: nat)
      requires Valid() && proto < 0x1_0000 && tci < 0x1_0000
      requires ETH_TLEN <= macLen <= len && VLAN_HLEN <= data
      requires macLen > ETH_TLEN && MetadataInPlace() ==> metaLen + VLAN_HLEN <= data
      modifies this
      ensures data == old(data) - VLAN_HLEN && len == old(len) + VLAN_HLEN
      ensures macSet == old(macSet) && protocol == old(protocol)
      ensures mac == if macSet then old(mac) - VLAN_HLEN else old(mac)
      ensures metaLen == if macLen == ETH_TLEN || old(MetadataInPlace()) then old(metaLen) else 0
      ensures var m := if macLen == ETH_TLEN then 0 else metaLen;
              m + VLAN_HLEN <= old(data) &&
              Tagged(head, old(head), old(data), macLen - 2, m, Tag(proto, tci))
    {
      assert Tag(proto, tci) == [proto / 256, proto % 256, tci / 256, tci % 256];
      data, len := data - VLAN_HLEN, len + VLAN_HLEN;
      if macLen > ETH_TLEN {
        DataMove(-VLAN_HLEN, macLen - ETH_TLEN);
      }
      if macSet {
        mac := mac - VLAN_HLEN;
      }
      Store16(data + macLen - 2, proto);
      Store16(data + macLen, tci);
    }

    /** The same for a MAC header of less than two bytes, which has no type field to keep. */
    method PushShort(tci: nat, macLen: nat)
      requires Valid() && tci < 0x1_0000
      requires macLen < ETH_TLEN && macLen <= len && VLAN_HLEN <= data
      modifies this
      ensures data == old(data) - VLAN_HLEN && len == old(len) + VLAN_HLEN
      ensures macSet == old(macSet) && protocol == old(protocol) && metaLen == old(metaLen)
      ensures mac == if macSet then old(mac) - VLAN_HLEN else old(mac)
      ensures Tailroom() == old(Tailroom())
      ensures Frame()[macLen..] == Pack16(tci) + Pack16(protocol) + old(Frame())[macLen..]
      ensures Frame()[..macLen] == old(head)[data..data + macLen]
    {
      ghost var h, d := head, data;
      PushShortBytes(tci, macLen);
      ShortFrame(head, h, d, len - VLAN_HLEN, macLen, Pack16(tci) + Pack16(protocol));
    }

    method PushShortBytes(tci: nat, macLen: nat)
      requires Valid() && tci < 0x1_0000
      requires macLen < ETH_TLEN && macLen <= len && VLAN_HLEN <= data
      modifies this
      ensures data == old(data) - VLAN_HLEN && len == old(len) + VLAN_HLEN
      ensures macSet == old(macSet) && protocol == old(protocol) && metaLen == old(metaLen)
      ensures mac == if macSet then old(mac) - VLAN_HLEN else old(mac)
      ensures Written(head, old(head), data + macLen, Pack16(tci) + Pack16(protocol))
    {
      data, len := data - VLAN_HLEN, len + VLAN_HLEN;
      if macSet {
        mac := mac - VLAN_HLEN;
      }
      Store16(data + macLen + 2, protocol);
      Store16(data + macLen, tci);
    }

    /** __vlan_insert_inner_tag after room was made, for any length of the MAC header. */
    method PushInner(proto: nat, tci: nat, macLen: nat)
      requires Valid() && proto < 0x1_0000 && tci < 0x1_0000
      requires macLen <= len && (if macLen > ETH_TLEN then metaLen else 0) + VLAN_HLEN <= data
      modifies this
      ensures data == old(data) - VLAN_HLEN && len == old(len) + VLAN_HLEN && data + len <= |head|
      ensures protocol == old(protocol) && macSet == old(macSet) && Tailroom() == old(Tailroom())
      ensures MetadataInPlace() <==> old(MetadataInPlace())
      ensures ETH_TLEN <= macLen ==> Frame() == InsertAt(old(Frame()), macLen - 2, Tag(proto, tci))
      ensures macLen < ETH_TLEN ==>
                && Frame()[macLen..] == Pack16(tci) + Pack16(protocol) + old(Frame())[macLen..]
                && Frame()[..macLen] == old(head)[data..data + macLen]
      ensures metaLen == if macLen <= ETH_TLEN || old(MetadataInPlace()) then old(metaLen) else 0
      ensures ETH_TLEN < macLen && MetadataInPlace() ==> metaLen <= data && Metadata() == old(Metadata())
      ensures ETH_TLEN == macLen ==> head[..data] == old(head)[..data]
    {
      if macLen >= ETH_TLEN {
        PushTag(proto, tci, macLen);
      } else {
        PushShort(tci, macLen);
      }
    }

    /** __vlan_insert_inner_tag: the packet becomes the old one with four bytes inserted two bytes before the end of
        the MAC header. h and d are the buffer and the packet's offset in it after room was made: the old ones
        if there was room, otherwise with more bytes in front. */
    method InsertInnerTag(proto: nat, tci: nat, macLen: nat, cloned: bool, memory: bool, keepsMeta: bool)
      returns (r: Result, ghost h: seq<byte>, ghost d: nat)
      requires Valid() && proto < 0x1_0000 && tci < 0x1_0000
      modifies this
      ensures data + len <= |head| && protocol == old(protocol) && macSet == old(macSet)
      ensures r == Invalid <==> macLen > old(len)
      ensures memory && macLen <= old(len) ==> r == Ok
      ensures r != Ok ==> unchanged(this)
      ensures r == Ok ==> VLAN_HLEN <= d && old(data) <= d && d + old(len) <= |h| && h[d - old(data)..] == old(head)
      ensures r == Ok && (if macLen > ETH_TLEN then old(metaLen) else 0) + VLAN_HLEN <= old(data) ==>
                h == old(head) && d == old(data)
      ensures r == Ok ==> data == d - VLAN_HLEN && len == old(len) + VLAN_HLEN && Tailroom() == old(Tailroom())
      ensures r == Ok ==> (MetadataInPlace() <==> old(MetadataInPlace()))
      ensures r == Ok && ETH_TLEN <= macLen ==>
                Frame() == InsertAt(old(Frame()), macLen - 2, Tag(proto, tci))
      // A header without a type field: its bytes are not moved, so others take their place.
      ensures r == Ok && macLen < ETH_TLEN ==>
                && Frame()[macLen..] == Pack16(tci) + Pack16(protocol) + old(Frame())[macLen..]
                && Frame()[..macLen] == h[data..data + macLen]
      ensures r == Ok && ETH_TLEN < macLen ==> Valid() && metaLen in {0, old(metaLen)}
      ensures r == Ok && ETH_TLEN < macLen && !MetadataInPlace() ==> metaLen == 0
      ensures r == Ok && ETH_TLEN < macLen && MetadataInPlace() && metaLen > 0 ==> Metadata() == old(Metadata())
      ensures r == Ok && ETH_TLEN == macLen ==> head[..data] == h[..data]
      // Metadata that lay directly before the packet, kept by the copy if one was needed, still does if and only if
      // the header is longer than its type field, or there is none, or the bytes four further in front are the same.
      ensures r == Ok && ETH_TLEN <= macLen && old(MetadataInPlace()) && keepsMeta ==>
                var n := old(metaLen);
                && metaLen == n
                && (n <= data && Metadata() == old(Metadata())
                    <==> || macLen > ETH_TLEN
                         || n == 0
                         || (n <= d - VLAN_HLEN && h[d - VLAN_HLEN - n..d - VLAN_HLEN] == old(Metadata())))
    {
      var room := if macLen > ETH_TLEN then metaLen else 0;
      h, d := head, data;
      if len < macLen {
        return Invalid, h, d;
      }
      var ok := Cow(room + VLAN_HLEN, cloned, memory, keepsMeta);
      if !ok {
        return NoMemory, h, d;
      }
      h, d := head, data;
      PushInner(proto, tci, macLen);
      if macLen == ETH_TLEN && metaLen <= data {
        SameSlice(head, h, data, data - metaLen, data);
      }
      r := Ok;
    }

    /** __vlan_insert_tag */
    method InsertTag(proto: nat, tci: nat, cloned: bool, memory: bool, keepsMeta: bool) returns (r: Result)
      requires Valid() && proto < 0x1_0000 && tci < 0x1_0000
      modifies this
      ensures Valid() && protocol == old(protocol) && macSet == old(macSet)
      ensures r == Invalid <==> ETH_HLEN > old(len)
      ensures memory && ETH_HLEN <= old(len) ==> r == Ok
      ensures r != Ok ==> unchanged(this)
      ensures r == Ok ==> Frame() == InsertAt(old(Frame()), 2 * ETH_ALEN, Tag(proto, tci))
      ensures r == Ok ==> len == old(len) + VLAN_HLEN && Tailroom() == old(Tailroom())
      ensures r == Ok ==> (MetadataInPlace() <==> old(MetadataInPlace()))
      ensures r == Ok ==> metaLen in {0, old(metaLen)}
      ensures r == Ok && MetadataInPlace() && metaLen > 0 ==> Metadata() == old(Metadata())
      ensures r == Ok && MetadataInPlace() && keepsMeta ==> metaLen == old(metaLen)
    {
      ghost var h, d;
      r, h, d := InsertInnerTag(proto, tci, ETH_HLEN, cloned, memory, keepsMeta);
    }

    /** vlan_set_encap_proto: the word behind the header is read only for a length field. */
    method SetEncapProto(vhdr: nat)
      requires vhdr + 4 <= |head| && (Unpack16(head, vhdr + 2) < ETH_P_802_3_MIN ==> vhdr + 6 <= |head|)
      modifies this`protocol
      ensures protocol == EncapProto(Unpack16(head, vhdr + 2), WordAt(head, vhdr + 4))
      // A type is taken as it is; behind a length FFFF marks raw 802.3, which is 1, anything else 802.2, which is 4.
      ensures Unpack16(head, vhdr + 2) >= 0x600 ==> protocol == Unpack16(head, vhdr + 2)
      ensures Unpack16(head, vhdr + 2) < 0x600 ==>
                protocol == if head[vhdr + 4] == 0xFF && head[vhdr + 5] == 0xFF then 1 else 4
    {
      var proto := Unpack16(head, vhdr + 2);
      if proto >= ETH_P_802_3_MIN {
        protocol := proto;
        return;
      }
      if Unpack16(head, vhdr + 4) == 0xFFFF {
        protocol := ETH_P_802_3;
      } else {
        protocol := ETH_P_802_2;
      }
    }

    /** The part of vlan_remove_tag that takes out the four bytes: skb_pull and the move of the addresses. */
    method PullTag()
      requires Valid() && ETH_HLEN + VLAN_HLEN <= len
      modifies this`head, this`data, this`len, this`metaLen
      ensures data == old(data) + VLAN_HLEN && len == old(len) - VLAN_HLEN && data + len <= |head|
      ensures Frame() == RemoveAt(old(Frame()), 2 * ETH_ALEN, VLAN_HLEN)
      ensures metaLen == if old(MetadataInPlace()) then old(metaLen) else 0
      ensures old(MetadataInPlace()) ==> metaLen <= data && Metadata() == old(Metadata())
    {
      ghost var h, d := head, data;
      len, data := len - VLAN_HLEN, data + VLAN_HLEN;
      DataMove(VLAN_HLEN, 2 * ETH_ALEN);
      UntaggedFrame(head, h, d, len + VLAN_HLEN, metaLen);
    }

    /** vlan_remove_tag: the inverse, for a packet that begins at its MAC header. The MAC header offset is
        left to the caller. */
    method RemoveTag() returns (tci: nat)
      requires Valid() && ETH_HLEN + VLAN_HLEN <= len
      requires Unpack16(head, data + 16) < ETH_P_802_3_MIN ==> data + 20 <= |head|
      modifies this
      ensures data == old(data) + VLAN_HLEN && len == old(len) - VLAN_HLEN && data + len <= |head|
      ensures mac == old(mac) && macSet == old(macSet)
      ensures tci == Unpack16(old(Frame()), ETH_HLEN)
      ensures protocol == EncapProto(Unpack16(old(Frame()), ETH_HLEN + 2), WordAt(old(head), old(data) + 18))
      ensures Unpack16(old(Frame()), 16) >= 0x600 ==> protocol == Unpack16(old(Frame()), 16)
      ensures Unpack16(old(Frame()), 16) < 0x600 ==>
                protocol == if old(head[data + 18] == 0xFF && head[data + 19] == 0xFF) then 1 else 4
      ensures Frame() == RemoveAt(old(Frame()), 2 * ETH_ALEN, VLAN_HLEN)
      ensures metaLen == if old(MetadataInPlace()) then old(metaLen) else 0
      ensures old(MetadataInPlace()) ==> metaLen <= data && Metadata() == old(Metadata())
    {
      var vhdr := data + ETH_HLEN;
      FrameWord(head, data, len, ETH_HLEN);
      FrameWord(head, data, len, ETH_HLEN + 2);
      tci := Unpack16(head, vhdr);
      SetEncapProto(vhdr);
      PullTag();
    }

    /** A tag put in and taken out again: the packet, its length and the metadata are as before, the tag
        control information comes back, and the protocol is the one the packet carries. */
    method TagRoundTrip(proto: nat, tci: nat, cloned: bool, memory: bool) returns (r: Result, back: nat)
      requires Valid() && proto < 0x1_0000 && tci < 0x1_0000
      requires MetadataInPlace() && ETH_HLEN <= len
      requires Unpack16(head, data + 12) < ETH_P_802_3_MIN ==> data + 16 <= |head|
      modifies this
      ensures memory ==> r == Ok
      ensures r != Ok ==> unchanged(this)
      ensures r == Ok ==>
                && back == tci
                && len == old(len) && data + len <= |head| && Frame() == old(Frame())
                && metaLen == old(metaLen) && metaLen <= data && Metadata() == old(Metadata())
                && (Unpack16(old(Frame()), 12) >= ETH_P_802_3_MIN ==> protocol == Unpack16(old(Frame()), 12))
    {
      ghost var f := Frame();
      r := InsertTag(proto, tci, cloned, memory, true);
      back := 0;
      if r == Ok {
        RemoveInserted(f, proto, tci);
        assert Frame()[16] == head[data + 16] && Frame()[17] == head[data + 17];
        back := RemoveTag();
      }
    }
  }

  /** A packet of two bytes with one byte of metadata, 7, before it and four zero bytes before that: after the tag
      is inserted behind the two-byte header, the byte before the packet is 0. */
  method TwoByteHeaderLosesMetadata() returns (skb: Skb, r: Result)
    ensures r == Ok && skb.len == 6 && skb.data <= |skb.head|
    ensures skb.MetadataInPlace() && skb.metaLen == 1 <= skb.data && skb.Metadata() == [0]
  {
    var bytes: seq<byte> := [0, 0, 0, 0, 7, 1, 2];
    skb := new Skb;
    skb.head, skb.data, skb.len := bytes, 5, 2;
    skb.macSet, skb.mac, skb.metaLen, skb.protocol := true, 5, 1, 0x800;
    ghost var h, d;
    r, h, d := skb.InsertInnerTag(0x8100, 1, 2, false, true, true);
    assert h == bytes && d == 5;
    SameSlice(skb.head, bytes, 1, 0, 1);
    assert bytes[0..1] == [0];
  }
}

/** Byte sequences and the big-endian 16-bit fields shared by the packet formats. */
module Bytes {

  type byte = x: int | 0 <= x < 256

  datatype Option<+T> = None | Some(value: T)

  function Min(x: int, y: int): int { if x < y then x else y }

  function Max(x: int, y: int): int { if x < y then y else x }

  /** The two bytes of a 16-bit field in network order. */
  function Pack16(v: nat): (r: seq<byte>)
    requires v < 0x1_0000
    ensures |r| == 2
  {
    [v / 256, v % 256]
  }

  /** The 16-bit field in network order at offset `i`. */
  function Unpack16(s: seq<byte>, i: nat): (v: nat)
    requires i + 2 <= |s|
    ensures v < 0x1_0000
  {
    (s[i] as int) * 256 + s[i + 1]
  }

  /** The bytes from offset `off` on replaced by those of `b`. */
  function Overwrite(s: seq<byte>, off: nat, b: seq<byte>): (r: seq<byte>)
    requires off + |b| <= |s|
    ensures |r| == |s|
    ensures forall i | 0 <= i < off || off + |b| <= i < |s| :: r[i] == s[i]
    ensures forall i {:trigger r[i]} | off <= i < off + |b| :: r[i] == b[i - off]
  {
    seq(|s|, i requires 0 <= i < |s| => if off <= i < off + |b| then b[i - off] else s[i])
  }

  /** What a write leaves and what it puts. */
  lemma OverwriteSlice(s: seq<byte>, off: nat, b: seq<byte>, lo: nat, hi: nat)
    requires off + |b| <= |s| && lo <= hi <= |s|
    ensures hi <= off || off + |b| <= lo ==> Overwrite(s, off, b)[lo..hi] == s[lo..hi]
    ensures off <= lo && hi <= off + |b| ==> Overwrite(s, off, b)[lo..hi] == b[lo - off..hi - off]
  {
    var r := Overwrite(s, off, b);
    assert forall i | lo <= i < hi :: r[lo..hi][i - lo] == r[i];
  }

  /** memmove: n bytes copied from offset `src` to offset `dst`, as if through a temporary copy. */
  function Moved(s: seq<byte>, src: nat, dst: nat, n: nat): (r: seq<byte>)
    requires src + n <= |s| && dst + n <= |s|
    ensures |r| == |s|
  {
    Overwrite(s, dst, s[src..src + n])
  }

  function Repeated(n: nat, v: byte): (r: seq<byte>) { seq(n, _ => v) }
}

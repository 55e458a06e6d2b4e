/** Bytes, the network byte order helpers and memcpy. */
module Bytes {

  type byte = x: int | 0 <= x < 256

  const UINT16_LIMIT: nat := 0x1_0000

  // ntohs of two adjacent bytes.
  function Uint16(b0: byte, b1: byte): (n: nat)
    ensures n < UINT16_LIMIT
  {
    b0 * 256 + b1
  }

  // htons of a value already reduced to 16 bits, as the two bytes that go on the wire.
  function Uint16Bytes(n: nat): (s: seq<byte>)
    requires n < UINT16_LIMIT
    ensures |s| == 2 && Uint16(s[0], s[1]) == n
  {
    [n / 256, n % 256]
  }

  // s with src laid over it from position at.
  function Splice(s: seq<byte>, at: nat, src: seq<byte>): (r: seq<byte>)
    requires at + |src| <= |s|
    ensures |r| == |s|
    ensures r[..at + |src|] == s[..at] + src && r[at + |src|..] == s[at + |src|..]
  {
    s[..at] + src + s[at + |src|..]
  }

  // memcpy(dst + at, src, |src|)
  method Memcpy(dst: array<byte>, at: nat, src: seq<byte>)
    requires at + |src| <= dst.Length
    modifies dst
    ensures dst[..] == Splice(old(dst[..]), at, src)
  {
    forall i | 0 <= i < |src| {
      dst[at + i] := src[i];
    }
  }
}

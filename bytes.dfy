/** Bytes, unsigned 32-bit integers and the little-endian '<I' field encoding
    that the RIFF container uses for every chunk size. */
module Bytes {

  type Byte = x: int | 0 <= x < 0x100

  const TwoTo32: int := 0x1_0000_0000

  /** What `struct.pack('<I', n)` accepts without raising `struct.error`. */
  type U32 = x: int | 0 <= x < 0x1_0000_0000

  /** The bytes of an ASCII text, one byte per character, as a `b'...'`
      literal holds them. */
  function Ascii(s: string): (b: seq<Byte>)
    requires forall i :: 0 <= i < |s| ==> s[i] as int < 0x80
    ensures |b| == |s|
    ensures forall i :: 0 <= i < |s| ==> b[i] == s[i] as int
  {
    if s == [] then [] else [s[0] as int] + Ascii(s[1..])
  }

  function Min(a: int, b: int): int { if a <= b then a else b }

  function Max(a: int, b: int): int { if a <= b then b else a }

  /** `struct.unpack('<I', b)[0]`: four bytes, least significant first. */
  function LE32(b: seq<Byte>): (n: U32)
    requires |b| == 4
  {
    var b0, b1, b2, b3: int := b[0], b[1], b[2], b[3];
    b0 + 0x100 * b1 + 0x1_0000 * b2 + 0x100_0000 * b3
  }

  /** `struct.pack('<I', n)`. Decoding what it packs gives `n` back. */
  function LE32Bytes(n: U32): (b: seq<Byte>)
    ensures |b| == 4
    ensures LE32(b) == n
  {
    var q1 := n / 0x100;
    var q2 := q1 / 0x100;
    var q3 := q2 / 0x100;
    assert n == n % 0x100 + 0x100 * (q1 % 0x100) + 0x1_0000 * (q2 % 0x100) + 0x100_0000 * q3;
    [n % 0x100, q1 % 0x100, q2 % 0x100, q3]
  }

  /** Dividing `lo + 0x100 * hi` by 0x100 splits off the low byte. */
  lemma SplitByte(n: int, lo: int, hi: int)
    requires 0 <= lo < 0x100 && 0 <= hi
    requires n == lo + 0x100 * hi
    ensures n % 0x100 == lo && n / 0x100 == hi
  {
  }

  /** The other direction of the round trip: a 4-byte field is exactly the
      packing of the value it decodes to, so the encoding is one-to-one. */
  lemma LE32Injective(b: seq<Byte>)
    requires |b| == 4
    ensures LE32Bytes(LE32(b)) == b
  {
    var n := LE32(b);
    var b0, b1, b2, b3: int := b[0], b[1], b[2], b[3];
    var q2 := b2 + 0x100 * b3;
    var q1 := b1 + 0x100 * q2;
    SplitByte(n, b0, q1);
    SplitByte(q1, b1, q2);
    SplitByte(q2, b2, b3);
    var r := LE32Bytes(n);
    assert r[0] == b[0] && r[1] == b[1] && r[2] == b[2] && r[3] == b[3];
  }
}

/** The header's 32-bit integer fields, read as on a standard-size,
    little-endian host: four bytes read as an unsigned 32-bit integer, least significant byte first. */
module LittleEndian {
  import opened Bytes

  const TwoTo32: int := 0x1_0000_0000

  /** An unsigned 32-bit value. */
  type u32 = n: int | 0 <= n < TwoTo32

  /** The four bytes that store `n`, least significant first. */
  function EncodeU32(n: u32): (s: seq<byte>)
    ensures |s| == 4
    ensures DecodeU32(s) == n
  {
    var q1 := n / 0x100;
    var q2 := q1 / 0x100;
    var q3 := q2 / 0x100;
    assert n == n % 0x100 + 0x100 * (q1 % 0x100 + 0x100 * (q2 % 0x100 + 0x100 * q3));
    [n % 0x100, q1 % 0x100, q2 % 0x100, q3]
  }

  /** The value stored in four little-endian bytes. Every four bytes decode,
      and re-encoding the value gives back the same bytes. */
  function DecodeU32(s: seq<byte>): (n: u32)
    requires |s| == 4
  {
    var b0, b1, b2, b3 := s[0] as int, s[1] as int, s[2] as int, s[3] as int;
    b0 + 0x100 * b1 + 0x1_0000 * b2 + 0x100_0000 * b3
  }

  /** Decoding is injective on four-byte slices: `EncodeU32` is its inverse. */
  lemma EncodeDecode(s: seq<byte>)
    requires |s| == 4
    ensures EncodeU32(DecodeU32(s)) == s
  {
    var n := DecodeU32(s) as int;
    var b0, b1, b2, b3 := s[0] as int, s[1] as int, s[2] as int, s[3] as int;
    var hi3 := b1 + 0x100 * b2 + 0x1_0000 * b3;
    var hi2 := b2 + 0x100 * b3;
    assert n == b0 + 0x100 * hi3;
    ByteAndRest(b0, hi3);
    assert hi3 == b1 + 0x100 * hi2;
    ByteAndRest(b1, hi2);
    ByteAndRest(b2, b3);
  }

  /** The low byte and the rest of `lo + 256 * hi` are `lo` and `hi`. */
  lemma ByteAndRest(lo: int, hi: int)
    requires 0 <= lo < 0x100 && 0 <= hi
    ensures (lo + 0x100 * hi) % 0x100 == lo && (lo + 0x100 * hi) / 0x100 == hi
  {
  }

  /** The boundary values 0, 1 and 0xFFFFFFFF survive encode-then-decode and
      have the expected byte images. */
  lemma BoundaryValues()
    ensures EncodeU32(0) == [0, 0, 0, 0] && DecodeU32([0, 0, 0, 0]) == 0
    ensures EncodeU32(1) == [1, 0, 0, 0] && DecodeU32([1, 0, 0, 0]) == 1
    ensures EncodeU32(0xFFFF_FFFF) == [0xFF, 0xFF, 0xFF, 0xFF]
    ensures DecodeU32([0xFF, 0xFF, 0xFF, 0xFF]) == 0xFFFF_FFFF
  {
  }
}

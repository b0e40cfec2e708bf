/** `binascii.hexlify` and its inverse, and the "byte-reversed hex" rendering
    the header reader uses for its checksum, signature, version, type and
    DB-time fields. */
module HexCodec {
  import opened Bytes
  import opened Numerals
  import opened Wrappers

  /** The two lowercase hex digits of a byte, zero-padded to width two: what
      the dump's hex column and the hex encoder both write for each byte. */
  function HexPair(b: byte): (s: string)
    ensures |s| == 2
    ensures AllDigits(s, 16)
    ensures FromDigits(s, 16) == b
  {
    ByteHexWidth(b);
    FormatNat(b, 16, 2)
  }

  /** The hex encoder: two lowercase digits per byte, in order, with no
      separators. */
  function Hexlify(bs: seq<byte>): (s: string)
    ensures |s| == 2 * |bs|
    ensures AllDigits(s, 16)
  {
    if |bs| == 0 then "" else HexPair(bs[0]) + Hexlify(bs[1..])
  }

  /** `binascii.unhexlify` restricted to lowercase digits: `None` for an odd
      length or a character that is not a lowercase hex digit. */
  function Unhexlify(s: string): Option<seq<byte>>
  {
    if |s| == 0 then Some([])
    else if |s| == 1 || !AllDigits(s[..2], 16) then None
    else
      var b := FromDigits(s[..2], 16);
      if b >= 256 then None
      else match Unhexlify(s[2..])
        case None => None
        case Some(rest) => Some([b as byte] + rest)
  }

  /** Hex encoding is lossless: decoding it gives back the bytes. */
  lemma {:induction false} UnhexlifyHexlify(bs: seq<byte>)
    ensures Unhexlify(Hexlify(bs)) == Some(bs)
  {
    if |bs| > 0 {
      var s := Hexlify(bs);
      assert s[..2] == HexPair(bs[0]);
      assert s[2..] == Hexlify(bs[1..]);
      UnhexlifyHexlify(bs[1..]);
      assert [bs[0]] + bs[1..] == bs;
    }
  }

  /** The other direction: text that decodes is the hex encoding of what
      it decodes to, so each byte sequence has exactly one lowercase hex
      rendering. */
  lemma {:induction false} HexlifyUnhexlify(s: string)
    requires Unhexlify(s).Some?
    ensures Hexlify(Unhexlify(s).value) == s
  {
    if |s| > 0 {
      var bs := Unhexlify(s).value;
      var b := FromDigits(s[..2], 16) as byte;
      assert bs == [b] + Unhexlify(s[2..]).value;
      HexlifyUnhexlify(s[2..]);
      TwoDigitsUnique(HexPair(b), s[..2], 16);
      assert s[..2] + s[2..] == s;
    }
  }

  /** Hex encoding commutes with concatenation. */
  lemma {:induction false} HexlifyAppend(a: seq<byte>, b: seq<byte>)
    ensures Hexlify(a + b) == Hexlify(a) + Hexlify(b)
  {
    if |a| == 0 {
      assert a + b == b;
    } else {
      HexlifyAppend(a[1..], b);
      HexlifyConsAppend(a, b);
    }
  }

  lemma HexlifyConsAppend(a: seq<byte>, b: seq<byte>)
    requires |a| > 0
    ensures Hexlify(a + b) == HexPair(a[0]) + Hexlify(a[1..] + b)
  {
    assert (a + b)[0] == a[0];
    assert (a + b)[1..] == a[1..] + b;
  }

  /** The display of a header field: the field's bytes
      written last byte first, two lowercase digits per byte, no separators.
      Un-hexing the text and reversing again recovers the field exactly. */
  function ReversedHex(field: seq<byte>): (s: string)
    ensures |s| == 2 * |field|
    ensures AllDigits(s, 16)
    ensures Unhexlify(s).Some? && Reverse(Unhexlify(s).value) == field
  {
    UnhexlifyHexlify(Reverse(field));
    ReverseReverse(field);
    Hexlify(Reverse(field))
  }

  /** Digit pair `k` of a reversed-hex field spells byte `n-1-k` of the
      field, i.e. the text reads as the big-endian hex of a little-endian
      stored value. */
  lemma {:induction false} ReversedHexPairs(field: seq<byte>, k: nat)
    requires k < |field|
    ensures ReversedHex(field)[2 * k .. 2 * k + 2] == HexPair(field[|field| - 1 - k])
  {
    HexlifyPair(Reverse(field), k);
  }

  lemma {:induction false} HexlifyPair(bs: seq<byte>, k: nat)
    requires k < |bs|
    ensures Hexlify(bs)[2 * k .. 2 * k + 2] == HexPair(bs[k])
  {
    var p, t := HexPair(bs[0]), Hexlify(bs[1..]);
    assert Hexlify(bs) == p + t;
    if k == 0 {
      assert (p + t)[0..2] == p;
    } else {
      HexlifyPair(bs[1..], k - 1);
      PairAfterPair(p, t, k, HexPair(bs[1..][k - 1]));
    }
  }

  /** Pair `k - 1` of what follows a leading pair is pair `k` of the
      whole. */
  lemma PairAfterPair<T>(p: seq<T>, t: seq<T>, k: nat, v: seq<T>)
    requires |p| == 2 && 0 < k && 2 * k <= |t|
    requires t[2 * (k - 1) .. 2 * (k - 1) + 2] == v
    ensures (p + t)[2 * k .. 2 * k + 2] == v
  {
    SliceAfterPrefix(p, t, 2 * k, 2 * k + 2);
  }
}

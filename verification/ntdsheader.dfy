/** The NTDS.DIT header reader: `NTDSHeader(header)` pulls the checksum,
    signature, format version, file type, DB time, five log timestamps,
    the Windows version and the page size out of fixed offsets of the
    file's first bytes, and `str()` of it renders them as a labelled report
    followed by a hex dump of the first 672 bytes. */
module NtdsHeader {
  import opened Bytes
  import opened Text
  import opened Numerals
  import opened HexCodec
  import opened LittleEndian
  import opened HexDump
  import opened Wrappers

  /** The decoder of the 8-byte log timestamps (`dsGetDBLogTimeStampStr`),
      which lives outside this model: any total function from the slice
      it is given to the text it returns. */
  type TimestampDecoder = seq<byte> -> string

  /** The decoded header. `raw` is the buffer it was decoded from, kept
      whole; the five hex fields are the byte-reversed hex of their
      slices; the five times are what the timestamp decoder made of theirs;
      the last five are little-endian unsigned 32-bit integers. */
  datatype Header = Header(
    raw: seq<byte>,
    checksum: string,
    signature: string,
    fileFormatVersion: string,
    fileType: string,
    dbTime: string,
    creationTime: string,
    consistentTime: string,
    attachTime: string,
    detachTime: string,
    recoveryTime: string,
    majorVersion: u32,
    minorVersion: u32,
    buildNumber: u32,
    servicePack: u32,
    pageSize: u32)

  /** The last byte read by `struct.unpack`: the page size ends at offset
      240, so a shorter buffer makes the constructor raise. */
  const MinLength: nat := 240

  /** The unsigned little-endian integer in the four bytes at `at`. */
  function ReadU32(header: seq<byte>, at: nat): (n: u32)
    requires at + 4 <= |header|
    ensures EncodeU32(n) == header[at..at + 4]
  {
    EncodeDecode(header[at..at + 4]);
    DecodeU32(header[at..at + 4])
  }

  /** `s` is the byte-reversed hex of `field`: un-hexing it gives the
      field's bytes last byte first. */
  predicate ShowsReversed(s: string, field: seq<byte>)
  {
    |s| == 2 * |field| && AllDigits(s, 16) && Unhexlify(s) == Some(Reverse(field))
  }

  lemma ReversedHexShows(field: seq<byte>)
    ensures ShowsReversed(ReversedHex(field), field)
  {
    ReverseReverse(Unhexlify(ReversedHex(field)).value);
  }

  /** What the constructor stores for a buffer of at least 240 bytes,
      field by field: the buffer itself, the byte-reversed hex of bytes
      0-4, 4-8, 8-12, 12-16 and 16-24, the timestamp decoder's rendering of
      bytes 28-36, 64-72, 72-80, 88-96 and 244-252 (cut short by Python's
      slicing when the buffer ends before 252), and the little-endian
      integers at 216, 220, 224, 228 and 236. */
  predicate Decoded(h: Header, header: seq<byte>, timestamp: TimestampDecoder)
    requires |header| >= MinLength
  {
    h.raw == header
    && ShowsReversed(h.checksum, header[0..4])
    && ShowsReversed(h.signature, header[4..8])
    && ShowsReversed(h.fileFormatVersion, header[8..12])
    && ShowsReversed(h.fileType, header[12..16])
    && ShowsReversed(h.dbTime, header[16..24])
    && h.creationTime == timestamp(header[28..36])
    && h.consistentTime == timestamp(header[64..72])
    && h.attachTime == timestamp(header[72..80])
    && h.detachTime == timestamp(header[88..96])
    && h.recoveryTime == timestamp(Slice(header, 244, 252))
    && EncodeU32(h.majorVersion) == header[216..220]
    && EncodeU32(h.minorVersion) == header[220..224]
    && EncodeU32(h.buildNumber) == header[224..228]
    && EncodeU32(h.servicePack) == header[228..232]
    && EncodeU32(h.pageSize) == header[236..240]
  }

  /** `NTDSHeader(header)`. `None` stands for the exception the constructor
      raises when the buffer ends before offset 240 (`struct.unpack`
      needs four whole bytes); otherwise the header holds the fields
      `Decoded` describes. */
  function Decode(header: seq<byte>, timestamp: TimestampDecoder): (r: Option<Header>)
    ensures r.Some? <==> |header| >= MinLength
    ensures r.Some? ==> Decoded(r.value, header, timestamp)
  {
    if |header| < MinLength then None
    else
      ReversedHexShows(header[0..4]);
      ReversedHexShows(header[4..8]);
      ReversedHexShows(header[8..12]);
      ReversedHexShows(header[12..16]);
      ReversedHexShows(header[16..24]);
      Some(Header(
        header,
        ReversedHex(header[0..4]),
        ReversedHex(header[4..8]),
        ReversedHex(header[8..12]),
        ReversedHex(header[12..16]),
        ReversedHex(header[16..24]),
        timestamp(header[28..36]),
        timestamp(header[64..72]),
        timestamp(header[72..80]),
        timestamp(header[88..96]),
        timestamp(Slice(header, 244, 252)),
        ReadU32(header, 216),
        ReadU32(header, 220),
        ReadU32(header, 224),
        ReadU32(header, 228),
        ReadU32(header, 236)))
  }

  /** Equal four-byte images mean equal integers. */
  lemma EncodeU32Injective(x: u32, y: u32)
    requires EncodeU32(x) == EncodeU32(y)
    ensures x == y
  {
    assert DecodeU32(EncodeU32(x)) == x;
  }

  /** A field has one byte-reversed hex rendering. */
  lemma ShowsReversedUnique(s: string, t: string, field: seq<byte>)
    requires ShowsReversed(s, field) && ShowsReversed(t, field)
    ensures s == t
  {
    HexlifyUnhexlify(s);
    HexlifyUnhexlify(t);
  }

  /** `Decoded` pins the header down completely: a buffer has one decoded
      header. */
  lemma {:induction false} DecodedUnique(h1: Header, h2: Header, header: seq<byte>, timestamp: TimestampDecoder)
    requires |header| >= MinLength
    requires Decoded(h1, header, timestamp) && Decoded(h2, header, timestamp)
    ensures h1 == h2
  {
    ShowsReversedUnique(h1.checksum, h2.checksum, header[0..4]);
    ShowsReversedUnique(h1.signature, h2.signature, header[4..8]);
    ShowsReversedUnique(h1.fileFormatVersion, h2.fileFormatVersion, header[8..12]);
    ShowsReversedUnique(h1.fileType, h2.fileType, header[12..16]);
    ShowsReversedUnique(h1.dbTime, h2.dbTime, header[16..24]);
    EncodeU32Injective(h1.majorVersion, h2.majorVersion);
    EncodeU32Injective(h1.minorVersion, h2.minorVersion);
    EncodeU32Injective(h1.buildNumber, h2.buildNumber);
    EncodeU32Injective(h1.servicePack, h2.servicePack);
    EncodeU32Injective(h1.pageSize, h2.pageSize);
  }

  /** So the constructor's result is exactly the header `Decoded`
      describes: `Decode(header) == Some(h)` if and only if the buffer is
      long enough and `h` holds its fields. */
  lemma DecodeExact(header: seq<byte>, timestamp: TimestampDecoder, h: Header)
    ensures Decode(header, timestamp) == Some(h) <==> |header| >= MinLength && Decoded(h, header, timestamp)
  {
    if |header| >= MinLength && Decoded(h, header, timestamp) {
      DecodedUnique(Decode(header, timestamp).value, h, header, timestamp);
    }
  }

  /** The hex fields read only bytes 0 to 24 and the integers only bytes
      216 to 240: two buffers that agree there decode to the same hex and
      integer fields, whatever lies between or after. */
  lemma DecodeLocal(a: seq<byte>, b: seq<byte>, timestamp: TimestampDecoder)
    requires |a| >= MinLength && |b| >= MinLength
    requires a[0..24] == b[0..24] && a[216..240] == b[216..240]
    ensures var ha, hb := Decode(a, timestamp).value, Decode(b, timestamp).value;
      ha.checksum == hb.checksum && ha.signature == hb.signature
      && ha.fileFormatVersion == hb.fileFormatVersion && ha.fileType == hb.fileType
      && ha.dbTime == hb.dbTime
      && ha.majorVersion == hb.majorVersion && ha.minorVersion == hb.minorVersion
      && ha.buildNumber == hb.buildNumber && ha.servicePack == hb.servicePack
      && ha.pageSize == hb.pageSize
  {
    DecodedLocal(Decode(a, timestamp).value, Decode(b, timestamp).value, a, b, timestamp);
  }

  lemma DecodedLocal(ha: Header, hb: Header, a: seq<byte>, b: seq<byte>, timestamp: TimestampDecoder)
    requires |a| >= MinLength && |b| >= MinLength
    requires Decoded(ha, a, timestamp) && Decoded(hb, b, timestamp)
    requires a[0..24] == b[0..24] && a[216..240] == b[216..240]
    ensures ha.checksum == hb.checksum && ha.signature == hb.signature
      && ha.fileFormatVersion == hb.fileFormatVersion && ha.fileType == hb.fileType
      && ha.dbTime == hb.dbTime
      && ha.majorVersion == hb.majorVersion && ha.minorVersion == hb.minorVersion
      && ha.buildNumber == hb.buildNumber && ha.servicePack == hb.servicePack
      && ha.pageSize == hb.pageSize
  {
    SameHex(ha.checksum, hb.checksum, a, b, 0, 24, 0, 4);
    SameHex(ha.signature, hb.signature, a, b, 0, 24, 4, 8);
    SameHex(ha.fileFormatVersion, hb.fileFormatVersion, a, b, 0, 24, 8, 12);
    SameHex(ha.fileType, hb.fileType, a, b, 0, 24, 12, 16);
    SameHex(ha.dbTime, hb.dbTime, a, b, 0, 24, 16, 24);
    SameU32(ha.majorVersion, hb.majorVersion, a, b, 216, 240, 216, 220);
    SameU32(ha.minorVersion, hb.minorVersion, a, b, 216, 240, 220, 224);
    SameU32(ha.buildNumber, hb.buildNumber, a, b, 216, 240, 224, 228);
    SameU32(ha.servicePack, hb.servicePack, a, b, 216, 240, 228, 232);
    SameU32(ha.pageSize, hb.pageSize, a, b, 216, 240, 236, 240);
  }

  /** A hex field read from a slice on which two buffers agree is the same
      for both. */
  lemma SameHex(s: string, t: string, a: seq<byte>, b: seq<byte>, lo: nat, hi: nat, i: nat, j: nat)
    requires lo <= i <= j <= hi <= |a| && hi <= |b|
    requires a[lo..hi] == b[lo..hi]
    requires ShowsReversed(s, a[i..j]) && ShowsReversed(t, b[i..j])
    ensures s == t
  {
    SameSlice(a, b, lo, hi, i, j);
    ShowsReversedUnique(s, t, a[i..j]);
  }

  /** An integer read from a slice on which two buffers agree is the same
      for both. */
  lemma SameU32(x: u32, y: u32, a: seq<byte>, b: seq<byte>, lo: nat, hi: nat, i: nat, j: nat)
    requires lo <= i <= j <= hi <= |a| && hi <= |b|
    requires a[lo..hi] == b[lo..hi]
    requires EncodeU32(x) == a[i..j] && EncodeU32(y) == b[i..j]
    ensures x == y
  {
    SameSlice(a, b, lo, hi, i, j);
    EncodeU32Injective(x, y);
  }

  /** Buffers that agree on `lo..hi` agree on every slice within it. */
  lemma SameSlice(a: seq<byte>, b: seq<byte>, lo: nat, hi: nat, i: nat, j: nat)
    requires lo <= i <= j <= hi <= |a| && hi <= |b|
    requires a[lo..hi] == b[lo..hi]
    ensures a[i..j] == b[i..j]
  {
    SliceOfSlice(a, lo, hi, i - lo, j - lo);
    SliceOfSlice(b, lo, hi, i - lo, j - lo);
  }

  /** Writing four little-endian integers at offset 216 makes them the
      decoded major version, minor version, build number and service
      pack. */
  lemma VersionPlacement(header: seq<byte>, timestamp: TimestampDecoder, major: u32, minor: u32, build: u32, sp: u32)
    requires |header| >= MinLength
    requires header[216..232] == EncodeU32(major) + EncodeU32(minor) + EncodeU32(build) + EncodeU32(sp)
    ensures var h := Decode(header, timestamp).value;
      h.majorVersion == major && h.minorVersion == minor
      && h.buildNumber == build && h.servicePack == sp
  {
    DecodedVersion(Decode(header, timestamp).value, header, timestamp, major, minor, build, sp);
  }

  lemma DecodedVersion(h: Header, header: seq<byte>, timestamp: TimestampDecoder, major: u32, minor: u32, build: u32, sp: u32)
    requires |header| >= MinLength && Decoded(h, header, timestamp)
    requires header[216..232] == EncodeU32(major) + EncodeU32(minor) + EncodeU32(build) + EncodeU32(sp)
    ensures h.majorVersion == major && h.minorVersion == minor
      && h.buildNumber == build && h.servicePack == sp
  {
    VersionWords(header, EncodeU32(major), EncodeU32(minor), EncodeU32(build), EncodeU32(sp));
    EncodeU32Injective(h.majorVersion, major);
    EncodeU32Injective(h.minorVersion, minor);
    EncodeU32Injective(h.buildNumber, build);
    EncodeU32Injective(h.servicePack, sp);
  }

  /** The four words of the version block. */
  lemma VersionWords(header: seq<byte>, p: seq<byte>, q: seq<byte>, r: seq<byte>, t: seq<byte>)
    requires |header| >= 232 && |p| == |q| == |r| == |t| == 4
    requires header[216..232] == p + q + r + t
    ensures header[216..220] == p && header[220..224] == q
    ensures header[224..228] == r && header[228..232] == t
  {
    FourPieces(header[216..232], p, q, r, t, 4);
    SliceOfSlice(header, 216, 232, 0, 4);
    SliceOfSlice(header, 216, 232, 4, 8);
    SliceOfSlice(header, 216, 232, 8, 12);
    SliceOfSlice(header, 216, 232, 12, 16);
  }

  /** The five hex fields are exactly `binascii.hexlify` of their slices
      reversed: eight lowercase digits for the four-byte fields, sixteen
      for the DB time. */
  lemma HexFields(header: seq<byte>, timestamp: TimestampDecoder)
    requires |header| >= MinLength
    ensures var h := Decode(header, timestamp).value;
      h.checksum == Hexlify(Reverse(header[0..4])) && |h.checksum| == 8
      && h.signature == Hexlify(Reverse(header[4..8])) && |h.signature| == 8
      && h.fileFormatVersion == Hexlify(Reverse(header[8..12])) && |h.fileFormatVersion| == 8
      && h.fileType == Hexlify(Reverse(header[12..16])) && |h.fileType| == 8
      && h.dbTime == Hexlify(Reverse(header[16..24])) && |h.dbTime| == 16
  {
    var h := Decode(header, timestamp).value;
    ShowsReversedIsHex(h.checksum, header[0..4]);
    ShowsReversedIsHex(h.signature, header[4..8]);
    ShowsReversedIsHex(h.fileFormatVersion, header[8..12]);
    ShowsReversedIsHex(h.fileType, header[12..16]);
    ShowsReversedIsHex(h.dbTime, header[16..24]);
  }

  /** Text that un-hexes to a field reversed is the hex of the field
      reversed. */
  lemma ShowsReversedIsHex(s: string, field: seq<byte>)
    requires ShowsReversed(s, field)
    ensures s == Hexlify(Reverse(field))
  {
    HexlifyUnhexlify(s);
  }

  /** A buffer with the bytes `DE AD BE EF` at offset 4 has the signature
      `efbeadde`: the stored little-endian value written big-endian. */
  lemma SignatureScenario(header: seq<byte>, timestamp: TimestampDecoder)
    requires |header| >= MinLength && header[4..8] == [0xDE, 0xAD, 0xBE, 0xEF]
    ensures Decode(header, timestamp).value.signature == "efbeadde"
  {
    DecodedSignature(Decode(header, timestamp).value, header, timestamp);
  }

  lemma DecodedSignature(h: Header, header: seq<byte>, timestamp: TimestampDecoder)
    requires |header| >= MinLength && Decoded(h, header, timestamp)
    requires header[4..8] == [0xDE, 0xAD, 0xBE, 0xEF]
    ensures h.signature == "efbeadde"
  {
    HexlifyUnhexlify(h.signature);
    DeadBeefHex();
  }

  lemma DeadBeefHex()
    ensures Hexlify(Reverse([0xDE, 0xAD, 0xBE, 0xEF])) == "efbeadde"
  {
    var field: seq<byte> := [0xDE, 0xAD, 0xBE, 0xEF];
    var reversed: seq<byte> := [0xEF, 0xBE, 0xAD, 0xDE];
    assert Reverse(field) == reversed;
    HexlifyFour(0xEF, 0xBE, 0xAD, 0xDE);
    assert HexPair(0xEF) == "ef" by { HexPairOf(14, 15); }
    assert HexPair(0xBE) == "be" by { HexPairOf(11, 14); }
    assert HexPair(0xAD) == "ad" by { HexPairOf(10, 13); }
    assert HexPair(0xDE) == "de" by { HexPairOf(13, 14); }
    assert Hexlify(reversed) == "ef" + "be" + "ad" + "de";
    DeadBeefText();
  }

  /** Kept apart: the literal concatenation is cheap alone and costly in the
      context of the hex facts above. */
  lemma DeadBeefText()
    ensures "ef" + "be" + "ad" + "de" == "efbeadde"
  {
  }

  lemma HexlifyFour(a: byte, b: byte, c: byte, d: byte)
    ensures Hexlify([a, b, c, d]) == HexPair(a) + HexPair(b) + HexPair(c) + HexPair(d)
  {
    HexlifyCons(d, []);
    HexlifyCons(c, [d]);
    HexlifyCons(b, [c, d]);
    HexlifyCons(a, [b, c, d]);
    assert [a] + [b, c, d] == [a, b, c, d];
  }

  lemma HexlifyCons(x: byte, rest: seq<byte>)
    ensures Hexlify([x] + rest) == HexPair(x) + Hexlify(rest)
  {
    assert ([x] + rest)[1..] == rest;
  }

  /** The two digits of a byte whose high digit is not zero. */
  lemma HexPairOf(hi: nat, lo: nat)
    requires 1 <= hi < 16 && lo < 16
    ensures HexPair(16 * hi + lo) == [DigitChar(hi), DigitChar(lo)]
  {
    var n := 16 * hi + lo;
    assert n / 16 == hi && n % 16 == lo;
    assert ToDigits(n, 16) == ToDigits(hi, 16) + [DigitChar(lo)];
  }
}

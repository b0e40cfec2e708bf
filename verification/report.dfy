/** `str()` of a decoded header: twelve labelled lines, the dump heading
    and the hex dump of the first 672 bytes, joined by line breaks. */
module HeaderReport {
  import opened Bytes
  import opened Text
  import opened Numerals
  import opened HexCodec
  import opened LittleEndian
  import opened HexDump
  import opened DumpReader
  import opened NtdsHeader
  import opened Wrappers
  import opened ReportLabels
  import opened Printable

  /** What the detach line shows when the detach time is empty. */
  const DirtyState: string := "database is in a dirty state"

  /** The report dumps `header[:672]`, sixteen bytes per line, indented by
      four spaces. */
  const DumpWindow: nat := 672
  const DumpWidth: nat := 16
  const DumpIndent: int := 4

  /** A non-negative integer as the report prints it: its decimal numeral,
      with no sign and no leading zero. */
  function Decimal(n: nat): (s: string)
    ensures |s| >= 1 && AllDigits(s, 10) && FromDigits(s, 10) == n
    ensures |s| > 1 ==> s[0] != '0'
  {
    ToDigits(n, 10)
  }

  /** The value on the detach line: an empty detach time (a false value in
      Python) becomes the dirty-state phrase; any other is shown as it is. */
  function DetachValue(detach: string): (v: string)
    ensures v != ""
  {
    if detach == "" then DirtyState else detach
  }

  /** The Windows version: major and minor separated by a dot, the build
      number in parentheses, then the service pack after the words
      `Service pack`. */
  function VersionText(h: Header): string
  {
    Decimal(h.majorVersion) + "." + Decimal(h.minorVersion)
      + " (" + Decimal(h.buildNumber) + ") Service pack " + Decimal(h.servicePack)
  }

  /** The heading above the dump; it ends in a space. */
  const DumpHeading: string := "Header dump (first 672 bytes): "

  /** What follows each label, in the order `__str__` lists the lines. */
  function FieldValues(h: Header): (vs: seq<string>)
    ensures |vs| == |Labels|
  {
    [ h.checksum,
      h.signature,
      h.fileFormatVersion,
      h.fileType,
      Decimal(h.pageSize) + " bytes",
      h.dbTime,
      VersionText(h),
      h.creationTime,
      h.attachTime,
      DetachValue(h.detachTime),
      h.consistentTime,
      h.recoveryTime ]
  }

  /** Each label followed by its value. */
  function Labelled(vs: seq<string>): (ls: seq<string>)
    requires |vs| == |Labels|
    ensures |ls| == |Labels|
    ensures forall i :: 0 <= i < |ls| ==> ls[i] == Labels[i] + vs[i]
  {
    seq(|Labels|, i requires 0 <= i < |Labels| => Labels[i] + vs[i])
  }

  /** The thirteen lines before the dump: the twelve field lines and the
      dump heading. */
  function HeadLines(h: Header): (ls: seq<string>)
    ensures |ls| == 13
  {
    Labelled(FieldValues(h)) + [DumpHeading]
  }

  /** `str(header)`: the head lines and the dump, joined by line breaks. */
  function Report(h: Header): string
  {
    Join(HeadLines(h) + [Dump(Take(h.raw, DumpWindow), DumpWidth, DumpIndent)], "\n")
  }

  /** The detach value is never blank, and it reads as the dirty-state
      phrase exactly when the detach time is empty (or is that phrase
      itself). */
  lemma DetachValueDirty(detach: string)
    ensures DetachValue(detach) != ""
    ensures DetachValue(detach) == DirtyState <==> detach == "" || detach == DirtyState
    ensures detach != "" ==> DetachValue(detach) == detach
  {
  }

  /** No text field of the header holds a line break. */
  predicate SingleLine(h: Header)
  {
    '\n' !in h.checksum && '\n' !in h.signature && '\n' !in h.fileFormatVersion
    && '\n' !in h.fileType && '\n' !in h.dbTime
    && '\n' !in h.creationTime && '\n' !in h.consistentTime && '\n' !in h.attachTime
    && '\n' !in h.detachTime && '\n' !in h.recoveryTime
  }

  /** A decoded header is single-line when the timestamp decoder's
      renderings are: the hex fields are digits. */
  lemma DecodedSingleLine(h: Header, header: seq<byte>, timestamp: TimestampDecoder)
    requires |header| >= MinLength && Decoded(h, header, timestamp)
    requires '\n' !in h.creationTime && '\n' !in h.consistentTime && '\n' !in h.attachTime
    requires '\n' !in h.detachTime && '\n' !in h.recoveryTime
    ensures SingleLine(h)
  {
    DigitsNoNewline(h.checksum, 16);
    DigitsNoNewline(h.signature, 16);
    DigitsNoNewline(h.fileFormatVersion, 16);
    DigitsNoNewline(h.fileType, 16);
    DigitsNoNewline(h.dbTime, 16);
  }

  /** A decimal numeral has no line break. */
  lemma DecimalSingle(n: nat)
    ensures '\n' !in Decimal(n)
  {
    DigitsNoNewline(Decimal(n), 10);
  }

  /** The version text has no line break. */
  lemma VersionTextSingle(h: Header)
    ensures '\n' !in VersionText(h)
  {
    DecimalSingle(h.majorVersion);
    DecimalSingle(h.minorVersion);
    DecimalSingle(h.buildNumber);
    DecimalSingle(h.servicePack);
    VersionShape(Decimal(h.majorVersion), Decimal(h.minorVersion), Decimal(h.buildNumber), Decimal(h.servicePack));
  }

  lemma VersionShape(a: string, b: string, c: string, d: string)
    requires '\n' !in a && '\n' !in b && '\n' !in c && '\n' !in d
    ensures '\n' !in a + "." + b + " (" + c + ") Service pack " + d
  {
  }

  lemma PageSizeSingle(n: nat)
    ensures '\n' !in Decimal(n) + " bytes"
  {
    DecimalSingle(n);
  }

  lemma DetachSingle(detach: string)
    requires '\n' !in detach
    ensures '\n' !in DetachValue(detach)
  {
  }

  /** The field values of a single-line header hold no line break. */
  lemma FieldValuesSingle(h: Header)
    requires SingleLine(h)
    ensures forall i :: 0 <= i < |Labels| ==> '\n' !in FieldValues(h)[i]
  {
    PageSizeSingle(h.pageSize);
    VersionTextSingle(h);
    DetachSingle(h.detachTime);
  }

  /** Labelling values that hold no line break adds none. */
  lemma LabelledSingle(vs: seq<string>)
    requires |vs| == |Labels|
    requires forall i :: 0 <= i < |vs| ==> '\n' !in vs[i]
    ensures forall i :: 0 <= i < |Labels| ==> '\n' !in Labelled(vs)[i]
  {
    LabelsShape();
  }


  /** The head lines of a single-line header hold no line break. */
  lemma HeadLinesSingle(h: Header)
    requires SingleLine(h)
    ensures forall i :: 0 <= i < 13 ==> '\n' !in HeadLines(h)[i]
  {
    FieldValuesSingle(h);
    LabelledSingle(FieldValues(h));
    assert '\n' !in DumpHeading;
  }

  /** Split on line breaks, the report of a single-line header with a
      non-empty buffer is its thirteen head lines followed by the dump's
      lines. */
  lemma ReportLines(h: Header)
    requires SingleLine(h) && |h.raw| > 0
    ensures Split(Report(h), '\n')
      == HeadLines(h) + DumpLines(Take(h.raw, DumpWindow), DumpWidth, DumpIndent)
  {
    var src := Take(h.raw, DumpWindow);
    HeadLinesSingle(h);
    DumpSplit(src, DumpWidth, DumpIndent);
    DumpLinesSingle(src, DumpWidth, DumpIndent);
    SplitJoinAppend(HeadLines(h), DumpLines(src, DumpWidth, DumpIndent), '\n');
  }

  /** The report of a buffer of `L` bytes has `13 + ceil(min(L, 672) / 16)`
      lines; 55 when the whole 672-byte window is there. */
  lemma ReportLineCount(h: Header)
    requires SingleLine(h) && |h.raw| > 0
    ensures |Split(Report(h), '\n')| == 13 + LineCount(Min(|h.raw|, DumpWindow), DumpWidth)
    ensures |h.raw| >= DumpWindow ==> |Split(Report(h), '\n')| == 55
  {
    ReportLines(h);
    DumpSplit(Take(h.raw, DumpWindow), DumpWidth, DumpIndent);
    LineCountIsCeil(DumpWindow, DumpWidth);
  }

  /** Line `k < 12` of the report is label `k` followed by value `k`. */
  lemma ReportFieldLine(h: Header, k: nat)
    requires SingleLine(h) && |h.raw| > 0 && k < |Labels|
    ensures var lines := Split(Report(h), '\n');
      k < |lines| && lines[k] == Labels[k] + FieldValues(h)[k] && |Labels[k]| == LabelWidth
  {
    ReportLines(h);
    LabelsShape();
  }

  /** The timestamp decoder's renderings of a buffer's five time slices
      hold no line break. */
  predicate TimesSingleLine(header: seq<byte>, timestamp: TimestampDecoder)
    requires |header| >= MinLength
  {
    '\n' !in timestamp(header[28..36]) && '\n' !in timestamp(header[64..72])
    && '\n' !in timestamp(header[72..80]) && '\n' !in timestamp(header[88..96])
    && '\n' !in timestamp(Slice(header, 244, 252))
  }

  /** A decoded header is single-line when its times are. */
  lemma DecodedTimesSingle(h: Header, header: seq<byte>, timestamp: TimestampDecoder)
    requires |header| >= MinLength && Decoded(h, header, timestamp)
    requires TimesSingleLine(header, timestamp)
    ensures SingleLine(h) && |h.raw| > 0
  {
    DecodedSingleLine(h, header, timestamp);
  }

  /** The value after a label is the line with its first 21 characters cut
      off. */
  lemma AfterLabel(name: string, v: string)
    requires |name| == LabelWidth
    ensures Drop(name + v, LabelWidth) == v
  {
  }

  /** Reading the report back: cutting the label off the checksum,
      signature, format version, file type and DB time lines and un-hexing
      what is left gives the bytes of their slices, last byte first. */
  lemma ReportHexReadBack(header: seq<byte>, timestamp: TimestampDecoder)
    requires |header| >= MinLength && TimesSingleLine(header, timestamp)
    ensures var lines := Split(Report(Decode(header, timestamp).value), '\n');
      |lines| > 5
      && Unhexlify(Drop(lines[0], LabelWidth)) == Some(Reverse(header[0..4]))
      && Unhexlify(Drop(lines[1], LabelWidth)) == Some(Reverse(header[4..8]))
      && Unhexlify(Drop(lines[2], LabelWidth)) == Some(Reverse(header[8..12]))
      && Unhexlify(Drop(lines[3], LabelWidth)) == Some(Reverse(header[12..16]))
      && Unhexlify(Drop(lines[5], LabelWidth)) == Some(Reverse(header[16..24]))
  {
    DecodedHexReadBack(Decode(header, timestamp).value, header, timestamp);
  }

  lemma DecodedHexReadBack(h: Header, header: seq<byte>, timestamp: TimestampDecoder)
    requires |header| >= MinLength && Decoded(h, header, timestamp)
    requires TimesSingleLine(header, timestamp)
    ensures var lines := Split(Report(h), '\n');
      |lines| > 5
      && Unhexlify(Drop(lines[0], LabelWidth)) == Some(Reverse(header[0..4]))
      && Unhexlify(Drop(lines[1], LabelWidth)) == Some(Reverse(header[4..8]))
      && Unhexlify(Drop(lines[2], LabelWidth)) == Some(Reverse(header[8..12]))
      && Unhexlify(Drop(lines[3], LabelWidth)) == Some(Reverse(header[12..16]))
      && Unhexlify(Drop(lines[5], LabelWidth)) == Some(Reverse(header[16..24]))
  {
    DecodedTimesSingle(h, header, timestamp);
    HexFieldValues(h);
    HexLineReadBack(h, 0, h.checksum, header[0..4]);
    HexLineReadBack(h, 1, h.signature, header[4..8]);
    HexLineReadBack(h, 2, h.fileFormatVersion, header[8..12]);
    HexLineReadBack(h, 3, h.fileType, header[12..16]);
    HexLineReadBack(h, 5, h.dbTime, header[16..24]);
  }

  /** The hex-valued report lines show the header's hex fields. */
  lemma HexFieldValues(h: Header)
    ensures FieldValues(h)[0] == h.checksum && FieldValues(h)[1] == h.signature
      && FieldValues(h)[2] == h.fileFormatVersion && FieldValues(h)[3] == h.fileType
      && FieldValues(h)[5] == h.dbTime
  {
  }

  /** A field line whose value is the reversed hex of `field` reads back
      as `field` reversed. */
  lemma HexLineReadBack(h: Header, k: nat, v: string, field: seq<byte>)
    requires SingleLine(h) && |h.raw| > 0 && k < |Labels|
    requires FieldValues(h)[k] == v && ShowsReversed(v, field)
    ensures var lines := Split(Report(h), '\n');
      k < |lines| && Unhexlify(Drop(lines[k], LabelWidth)) == Some(Reverse(field))
  {
    ReportFieldLine(h, k);
    AfterLabel(Labels[k], v);
  }

  /** The dump part of the report reads back: line `13 + i` parses to
      offset `16 * i` and the bytes `header[16i : 16i + 16]` of the
      672-byte window `header[:672]`. */
  lemma ReportDumpReadBack(h: Header, i: nat)
    requires SingleLine(h) && |h.raw| > 0
    requires i < LineCount(Min(|h.raw|, DumpWindow), DumpWidth)
    ensures var lines := Split(Report(h), '\n');
      13 + i < |lines| && i * 16 < Min(|h.raw|, DumpWindow)
      && ParseLine(lines[13 + i], DumpIndent)
        == Some((i * 16, Slice(Take(h.raw, DumpWindow), i * 16, i * 16 + 16)))
  {
    var src := Take(h.raw, DumpWindow);
    DumpLineReads(src, DumpWidth, DumpIndent, i);
    ReportLines(h);
    ReadAfterHead(Split(Report(h), '\n'), HeadLines(h), DumpLines(src, DumpWidth, DumpIndent), src, i,
      (line: string) => ParseLine(line, DumpIndent));
  }

  /** A line that reads back as chunk `i` of `src` at the `i`-th offset of
      a 16-byte-per-line dump reads back the same way when thirteen head
      lines come before it, and that offset is `16 i`. */
  lemma ReadAfterHead<T>(lines: seq<string>, head: seq<string>, tail: seq<string>, src: seq<T>, i: nat,
                         parse: string -> Option<(nat, seq<T>)>)
    requires |head| == 13 && lines == head + tail && i < |tail| && Offset(i, 16) < |src|
    requires parse(tail[i]) == Some((Offset(i, 16), Slice(src, Offset(i, 16), Offset(i, 16) + 16)))
    ensures 13 + i < |lines| && i * 16 < |src|
      && parse(lines[13 + i]) == Some((i * 16, Slice(src, i * 16, i * 16 + 16)))
  {
    OffsetIsProduct(i, 16);
    assert lines[13 + i] == tail[i];
  }

  /** The all-zero detach slice: when the timestamp decoder renders eight
      zero bytes as the empty string, the detach line carries the
      dirty-state phrase. */
  const ZeroTime: seq<byte> := [0, 0, 0, 0, 0, 0, 0, 0]

  /** The detach line reads `Detach time:         database is in a dirty
      state` exactly when the decoder rendered the detach slice as the
      empty string (or as that phrase itself); in particular it does for an
      all-zero slice the decoder renders as empty. */
  lemma DirtyStateLine(header: seq<byte>, timestamp: TimestampDecoder)
    requires |header| >= MinLength && TimesSingleLine(header, timestamp)
    ensures var lines := Split(Report(Decode(header, timestamp).value), '\n');
      |lines| > 9
      && (lines[9] == Labels[9] + DirtyState
          <==> timestamp(header[88..96]) == "" || timestamp(header[88..96]) == DirtyState)
    ensures header[88..96] == ZeroTime && timestamp(ZeroTime) == "" ==>
      Split(Report(Decode(header, timestamp).value), '\n')[9] == Labels[9] + DirtyState
  {
    DecodedDirty(Decode(header, timestamp).value, header, timestamp);
  }

  lemma DecodedDirty(h: Header, header: seq<byte>, timestamp: TimestampDecoder)
    requires |header| >= MinLength && Decoded(h, header, timestamp)
    requires TimesSingleLine(header, timestamp)
    ensures var lines := Split(Report(h), '\n');
      |lines| > 9
      && (lines[9] == Labels[9] + DirtyState
          <==> h.detachTime == "" || h.detachTime == DirtyState)
  {
    DecodedTimesSingle(h, header, timestamp);
    ReportFieldLine(h, 9);
    DetachValueDirty(h.detachTime);
    LabelInjective(Labels[9], DetachValue(h.detachTime), DirtyState);
  }

  /** Two lines with the same label are equal exactly when their values
      are. */
  lemma LabelInjective(name: string, v: string, w: string)
    ensures name + v == name + w <==> v == w
  {
    if name + v == name + w {
      assert v == (name + v)[|name|..];
      assert w == (name + w)[|name|..];
    }
  }
  /** A buffer with the bytes `DE AD BE EF` at offset 4 shows them in
      stored order, `de ad be ef`, as the fifth to eighth pairs of the hex
      column of the first dump line: columns 24 to 35 of the report's
      fourteenth line, after the four-space indent, the offset `0000` and
      the gap. */
  lemma SignatureDumpScenario(header: seq<byte>, timestamp: TimestampDecoder)
    requires |header| >= MinLength && TimesSingleLine(header, timestamp)
    requires header[4..8] == [0xDE, 0xAD, 0xBE, 0xEF]
    ensures var lines := Split(Report(Decode(header, timestamp).value), '\n');
      |lines| > 13 && |lines[13]| >= 35 && lines[13][24..35] == "de ad be ef"
  {
    DecodedDumpColumn(Decode(header, timestamp).value, header, timestamp);
  }

  lemma DecodedDumpColumn(h: Header, header: seq<byte>, timestamp: TimestampDecoder)
    requires |header| >= MinLength && Decoded(h, header, timestamp)
    requires TimesSingleLine(header, timestamp)
    requires header[4..8] == [0xDE, 0xAD, 0xBE, 0xEF]
    ensures var lines := Split(Report(h), '\n');
      |lines| > 13 && |lines[13]| >= 35 && lines[13][24..35] == "de ad be ef"
  {
    DecodedTimesSingle(h, header, timestamp);
    var src := Take(h.raw, DumpWindow);
    FirstChunk(src, header);
    DeadBeefLine(Slice(src, 0, 16));
    DumpLineAt(src, DumpWidth, DumpIndent, 0);
    ReportLines(h);
    ColumnAfterHead(Split(Report(h), '\n'), HeadLines(h), DumpLines(src, DumpWidth, DumpIndent),
      FormatLine(DumpIndent, Offset(0, DumpWidth), Slice(src, 0, 16)));
  }

  lemma FirstChunk(src: seq<byte>, header: seq<byte>)
    requires |header| >= MinLength && src == Take(header, DumpWindow)
    requires header[4..8] == [0xDE, 0xAD, 0xBE, 0xEF]
    ensures |Slice(src, 0, 16)| == 16 && Slice(src, 0, 16)[4..8] == [0xDE, 0xAD, 0xBE, 0xEF]
  {
    assert Slice(src, 0, 16) == header[0..16];
  }

  lemma ColumnAfterHead(lines: seq<string>, head: seq<string>, tail: seq<string>, line: string)
    requires |head| == 13 && lines == head + tail && |tail| > 0 && tail[0] == line
    requires |line| >= 35 && line[24..35] == "de ad be ef"
    ensures |lines| > 13 && |lines[13]| >= 35 && lines[13][24..35] == "de ad be ef"
  {
    assert lines[13] == tail[0];
  }

  /** The first dump line of a chunk holding `DE AD BE EF` at index 4. */
  lemma DeadBeefLine(chunk: seq<byte>)
    requires |chunk| == 16 && chunk[4..8] == [0xDE, 0xAD, 0xBE, 0xEF]
    ensures var line := FormatLine(DumpIndent, Offset(0, DumpWidth), chunk);
      |line| >= 35 && line[24..35] == "de ad be ef"
  {
    DeadBeefField(chunk);
    assert |FormatNat(0, 16, 4)| == 4;
    WindowInFourth(Spaces(DumpIndent), FormatNat(0, 16, 4), Gap, HexField(chunk), Gap, ToPrintable(chunk),
      "de ad be ef");
  }

  /** Characters `12..23` of the fourth of six columns, when the first three
      fill twelve characters, are characters `24..35` of the whole line. */
  lemma WindowInFourth(a: string, b: string, c: string, d: string, e: string, f: string, w: string)
    requires |a| + |b| + |c| == 12 && |d| >= 23 && d[12..23] == w
    ensures |a + b + c + d + e + f| >= 35 && (a + b + c + d + e + f)[24..35] == w
  {
    assert a + b + c + d + e + f == (a + b + c) + (d + (e + f));
    SliceAfterPrefix(a + b + c, d + (e + f), 24, 35);
    assert (d + (e + f))[12..23] == d[12..23];
  }

  /** Bytes `DE AD BE EF` at index 4 of a chunk show as `de ad be ef` from
      the thirteenth character of its hex column. */
  lemma DeadBeefField(chunk: seq<byte>)
    requires |chunk| == 16 && chunk[4..8] == [0xDE, 0xAD, 0xBE, 0xEF]
    ensures |HexField(chunk)| == 47 && HexField(chunk)[12..23] == "de ad be ef"
  {
    HexFieldAt(chunk, 4);
    HexFieldAt(chunk, 5);
    HexFieldAt(chunk, 6);
    HexFieldAt(chunk, 7);
    DeadBeefPairs(chunk);
    FourPairsAt(HexField(chunk), "de", "ad", "be", "ef");
    DeadBeefSpaced();
  }

  lemma DeadBeefPairs(chunk: seq<byte>)
    requires |chunk| == 16 && chunk[4..8] == [0xDE, 0xAD, 0xBE, 0xEF]
    ensures HexPair(chunk[4]) == "de" && HexPair(chunk[5]) == "ad"
    ensures HexPair(chunk[6]) == "be" && HexPair(chunk[7]) == "ef"
  {
    assert chunk[4] == 0xDE && chunk[5] == 0xAD && chunk[6] == 0xBE && chunk[7] == 0xEF;
    HexPairOf(13, 14);
    HexPairOf(10, 13);
    HexPairOf(11, 14);
    HexPairOf(14, 15);
  }

  /** Four two-character pairs from index 12, each followed by a space
      but the last, spell the pairs separated by spaces. */
  lemma FourPairsAt(f: string, a: string, b: string, c: string, d: string)
    requires |f| >= 23 && |a| == |b| == |c| == |d| == 2
    requires f[12..14] == a && f[15..17] == b && f[18..20] == c && f[21..23] == d
    requires f[14] == ' ' && f[17] == ' ' && f[20] == ' '
    ensures f[12..23] == a + " " + b + " " + c + " " + d
  {
    var w := a + " " + b + " " + c + " " + d;
    assert |w| == 11;
    forall k | 0 <= k < 11
      ensures f[12..23][k] == w[k]
    {
      if k < 2 { assert f[12 + k] == f[12..14][k]; }
      else if 3 <= k < 5 { assert f[12 + k] == f[15..17][k - 3]; }
      else if 6 <= k < 8 { assert f[12 + k] == f[18..20][k - 6]; }
      else if 9 <= k { assert f[12 + k] == f[21..23][k - 9]; }
    }
  }

  /** Kept apart for the same reason as `DeadBeefText`. */
  lemma DeadBeefSpaced()
    ensures "de" + " " + "ad" + " " + "be" + " " + "ef" == "de ad be ef"
  {
  }
}

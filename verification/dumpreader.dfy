/** Reading a dump back: the partner of `HexDump`. A line of the dump is
    parsed into its offset and its bytes, and the dump of a non-empty
    buffer splits into exactly one line per chunk, line `i` reading back as
    offset `i * length` and the `i`-th slice of the buffer. */
module DumpReader {
  import opened Bytes
  import opened Text
  import opened Numerals
  import opened HexCodec
  import opened Printable
  import opened Wrappers
  import opened HexDump

  /** The length of the run of lowercase hex digits that `s` starts with. */
  function DigitRun(s: string): (k: nat)
    ensures k <= |s|
    ensures AllDigits(s[..k], 16)
    ensures k < |s| ==> DigitValue(s[k]) < 0
  {
    if |s| == 0 || DigitValue(s[0]) < 0 then 0
    else
      var k := 1 + DigitRun(s[1..]);
      assert s[..k] == [s[0]] + s[1..][..k - 1];
      k
  }

  /** The digit run of a numeral followed by a non-digit is the numeral. */
  lemma {:induction false} DigitRunOfNumeral(a: string, b: string)
    requires AllDigits(a, 16)
    requires |b| > 0 && DigitValue(b[0]) < 0
    ensures DigitRun(a + b) == |a|
  {
    if |a| == 0 {
      assert a + b == b;
    } else {
      DigitRunOfNumeral(a[1..], b);
      assert (a + b)[1..] == a[1..] + b;
    }
  }

  /** Reads one dump line written with the given indentation: skips the
      indentation and reads the rest with `ParseBody`. `None` when the line
      is shorter than the indentation. */
  function ParseLine(line: string, indent: int): Option<(nat, seq<byte>)>
  {
    var pad := if indent < 0 then 0 else indent;
    if |line| < pad then None else ParseBody(line[pad..])
  }

  /** Reads a dump line without its indentation: the run of hex digits it
      starts with is the offset, and `ParseColumns` reads what follows. */
  function ParseBody(body: string): Option<(nat, seq<byte>)>
  {
    var k := DigitRun(body);
    ParseColumns(body[..k], body[k..])
  }

  /** Reads the offset numeral `num` and the columns `after` that follow
      it: the hex column's width follows from the length of `after`, as a
      chunk of `n` bytes fills `4 + (3n - 1) + 4 + n` characters there.
      `None` when there is no offset, `after` is too short or the hex
      column does not decode. */
  function ParseColumns(num: string, after: string): Option<(nat, seq<byte>)>
    requires AllDigits(num, 16)
  {
    if |num| == 0 || |after| < 11 then None
    else
      var bytes := Unhexlify(StripSpaces(HexColumn(after)));
      if bytes.None? then None else Some((FromDigits(num, 16), bytes.value))
  }

  /** The hex column of the text after the offset: for `4n + 7`
      characters, the `3n - 1` that follow the first gap. */
  function HexColumn(after: string): string
    requires |after| >= 11
  {
    after[4 .. 3 * ((|after| - 7) / 4) + 3]
  }

  /** Where the hex column sits among the columns after the offset. */
  lemma ColumnsLayout(hex: string, printable: string, n: nat)
    requires n >= 1 && |hex| == 3 * n - 1 && |printable| == n
    ensures var after := Gap + hex + Gap + printable;
      |after| == 4 * n + 7 && after[4 .. 3 * n + 3] == hex
  {
  }

  /** Columns whose hex part decodes to `chunk` read back as the offset and
      `chunk`. */
  lemma ReadColumnParts(num: string, hex: string, printable: string, chunk: seq<byte>)
    requires |num| >= 1 && AllDigits(num, 16)
    requires |chunk| >= 1 && |hex| == 3 * |chunk| - 1 && |printable| == |chunk|
    requires Unhexlify(StripSpaces(hex)) == Some(chunk)
    ensures ParseColumns(num, Gap + hex + Gap + printable) == Some((FromDigits(num, 16), chunk))
  {
    var after := Gap + hex + Gap + printable;
    assert HexColumn(after) == hex by {
      ColumnsLayout(hex, printable, |chunk|);
      QuarterOf(|chunk|, |after|);
    }
  }

  /** The columns after the offset give back the chunk. */
  lemma ReadColumns(count: nat, chunk: seq<byte>)
    requires |chunk| >= 1
    ensures ParseColumns(FormatNat(count, 16, 4), Gap + HexField(chunk) + Gap + ToPrintable(chunk)) == Some((count, chunk))
  {
    HexFieldShape(chunk);
    UnhexlifyHexlify(chunk);
    ReadColumnParts(FormatNat(count, 16, 4), HexField(chunk), ToPrintable(chunk), chunk);
  }

  lemma QuarterOf(n: nat, m: nat)
    requires m == 4 * n + 7
    ensures (m - 7) / 4 == n
  {
  }

  /** An offset numeral followed by text that starts with a space splits
      into the numeral and that text. */
  lemma NumeralThenGap(num: string, after: string)
    requires |num| >= 1 && AllDigits(num, 16)
    requires |after| >= 1 && after[0] == ' '
    ensures DigitRun(num + after) == |num|
    ensures (num + after)[..|num|] == num && (num + after)[|num|..] == after
  {
    DigitRunOfNumeral(num, after);
  }

  /** An offset numeral followed by the columns reads back as the offset
      and the chunk. */
  lemma ParseBodyOf(count: nat, chunk: seq<byte>)
    requires |chunk| >= 1
    ensures ParseBody(FormatNat(count, 16, 4) + (Gap + HexField(chunk) + Gap + ToPrintable(chunk))) == Some((count, chunk))
  {
    var num := FormatNat(count, 16, 4);
    var after := Gap + HexField(chunk) + Gap + ToPrintable(chunk);
    NumeralThenGap(num, after);
    ReadColumns(count, chunk);
  }

  /** A dump line reads back as the offset and the chunk it was written
      from. */
  lemma ParseFormatLine(indent: int, count: nat, chunk: seq<byte>)
    requires |chunk| >= 1
    ensures ParseLine(FormatLine(indent, count, chunk), indent) == Some((count, chunk))
  {
    var body := FormatNat(count, 16, 4) + (Gap + HexField(chunk) + Gap + ToPrintable(chunk));
    Regroup(Spaces(indent), FormatNat(count, 16, 4), Gap, HexField(chunk), Gap, ToPrintable(chunk));
    ParseIndented(indent, body);
    ParseBodyOf(count, chunk);
  }

  /** Regrouping a line's columns as the indentation followed by the rest.
      Kept apart so that the six columns stay opaque while it is proved. */
  lemma Regroup(a: string, b: string, c: string, d: string, e: string, f: string)
    ensures a + b + c + d + e + f == a + (b + (c + d + e + f))
  {
  }

  /** The indentation is skipped before the rest of the line is read. */
  lemma ParseIndented(indent: int, body: string)
    ensures ParseLine(Spaces(indent) + body, indent) == ParseBody(body)
  {
    var s := Spaces(indent);
    assert (s + body)[|s|..] == body;
  }

  /** A dump line never contains a line break. */
  lemma FormatLineNoNewline(indent: int, count: nat, chunk: seq<byte>)
    requires |chunk| >= 1
    ensures '\n' !in FormatLine(indent, count, chunk)
  {
    var num := FormatNat(count, 16, 4);
    DigitsNoNewline(num, 16);
    HexFieldShape(chunk);
    ToPrintableNoNewline(chunk);
    var pad := Spaces(indent);
    assert '\n' !in pad by {
      assert forall k :: 0 <= k < |pad| ==> pad[k] == ' ';
    }
    assert FormatLine(indent, count, chunk) == pad + num + Gap + HexField(chunk) + Gap + ToPrintable(chunk);
  }

  /** A dump line starts with exactly `indent` spaces followed by a digit. */
  lemma FormatLineIndent(indent: int, count: nat, chunk: seq<byte>)
    requires indent >= 0
    ensures var line := FormatLine(indent, count, chunk);
      |line| > indent
      && (forall k :: 0 <= k < indent ==> line[k] == ' ')
      && 0 <= DigitValue(line[indent])
  {
    var num := FormatNat(count, 16, 4);
    Regroup(Spaces(indent), num, Gap, HexField(chunk), Gap, ToPrintable(chunk));
    IndentThenDigit(Spaces(indent), num, Gap + HexField(chunk) + Gap + ToPrintable(chunk));
  }

  lemma IndentThenDigit(pad: string, num: string, tail: string)
    requires |num| >= 1 && AllDigits(num, 16)
    requires forall k :: 0 <= k < |pad| ==> pad[k] == ' '
    ensures var line := pad + (num + tail);
      |line| > |pad|
      && (forall k :: 0 <= k < |pad| ==> line[k] == ' ')
      && 0 <= DigitValue(line[|pad|])
  {
    assert (pad + (num + tail))[|pad|] == num[0];
  }

  /** Line `i` renders the `i`-th `length`-element slice of `src` at the
      `i`-th offset (`i * length`, by `OffsetIsProduct`). */
  lemma LineAt<T>(src: seq<T>, length: nat, render: (nat, seq<T>) -> string, i: nat)
    requires length > 0 && i < LineCount(|src|, length)
    ensures |LinesFrom(src, length, 0, render)| == LineCount(|src|, length)
    ensures Offset(i, length) < |src|
    ensures LinesFrom(src, length, 0, render)[i]
      == render(Offset(i, length), Slice(src, Offset(i, length), Offset(i, length) + length))
  {
    ChunksCount(src, length);
    LineOfChunk(src, length, render, i);
    ChunkAt(src, length, i);
  }

  /** Line `i` renders chunk `i` at the `i`-th offset. */
  lemma LineOfChunk<T>(src: seq<T>, length: nat, render: (nat, seq<T>) -> string, i: nat)
    requires length > 0 && i < |Chunks(src, length)|
    ensures |LinesFrom(src, length, 0, render)| == |Chunks(src, length)|
    ensures LinesFrom(src, length, 0, render)[i] == render(Offset(i, length), Chunks(src, length)[i])
  {
    LinesFromLength(src, length, 0, render);
    LinesFromAt(src, length, 0, render, i);
    assert 0 + Offset(i, length) == Offset(i, length);
  }

  /** Line `i` of the dump is the line for the `i`-th `length`-byte slice of
      `src`, at the `i`-th offset. */
  lemma DumpLineAt(src: seq<byte>, length: nat, indent: int, i: nat)
    requires length > 0 && i < LineCount(|src|, length)
    ensures |DumpLines(src, length, indent)| == LineCount(|src|, length)
    ensures Offset(i, length) < |src|
    ensures DumpLines(src, length, indent)[i]
      == FormatLine(indent, Offset(i, length), Slice(src, Offset(i, length), Offset(i, length) + length))
  {
    LineAt(src, length, Renderer(indent), i);
  }

  /** Every chunk of a dump holds at least one byte. */
  lemma ChunkNonEmpty(src: seq<byte>, length: nat, i: nat)
    requires length > 0 && i < |Chunks(src, length)|
    ensures |Chunks(src, length)[i]| >= 1
  {
    ChunkAt(src, length, i);
  }

  /** No line of the dump contains a line break. */
  lemma DumpLinesSingle(src: seq<byte>, length: nat, indent: int)
    requires length > 0
    ensures forall i :: 0 <= i < |DumpLines(src, length, indent)| ==> '\n' !in DumpLines(src, length, indent)[i]
  {
    RenderSingleLine(indent);
    LinesSingle(src, length, Renderer(indent));
  }

  /** The dump of a non-empty buffer splits on line breaks into exactly its
      lines, `ceil(len(src) / length)` of them. */
  lemma DumpSplit(src: seq<byte>, length: nat, indent: int)
    requires length > 0 && |src| > 0
    ensures Split(Dump(src, length, indent), '\n') == DumpLines(src, length, indent)
    ensures |DumpLines(src, length, indent)| == LineCount(|src|, length)
  {
    RenderSingleLine(indent);
    JoinedSplit(src, length, Renderer(indent));
  }

  /** The loop writes one line per chunk, `LineCount` of the input length
      (`ceil(len(src) / length)` by `LineCountIsCeil`): none for empty
      input. */
  lemma DumpLineCount(src: seq<byte>, length: nat, indent: int)
    requires length > 0
    ensures |DumpLines(src, length, indent)| == LineCount(|src|, length)
  {
    LinesCount(src, length, Renderer(indent));
  }

  lemma LinesCount<T>(src: seq<T>, length: nat, render: (nat, seq<T>) -> string)
    requires length > 0
    ensures |LinesFrom(src, length, 0, render)| == LineCount(|src|, length)
  {
    LinesFromLength(src, length, 0, render);
    ChunksCount(src, length);
  }

  /** Rendered single lines joined by line breaks split back into the
      lines, one per chunk. */
  lemma JoinedSplit<T>(src: seq<T>, length: nat, render: (nat, seq<T>) -> string)
    requires length > 0 && |src| > 0
    requires forall count: nat, chunk: seq<T> :: |chunk| >= 1 ==> '\n' !in render(count, chunk)
    ensures Split(Join(LinesFrom(src, length, 0, render), "\n"), '\n') == LinesFrom(src, length, 0, render)
    ensures |LinesFrom(src, length, 0, render)| == LineCount(|src|, length)
  {
    LinesSingle(src, length, render);
    ChunksCount(src, length);
    LinesFromLength(src, length, 0, render);
    SplitJoin(LinesFrom(src, length, 0, render), '\n');
  }

  /** The dump of nothing is the empty string, and the dump of anything
      else is not. */
  lemma DumpEmpty(src: seq<byte>, length: nat, indent: int)
    requires length > 0
    ensures Dump(src, length, indent) == "" <==> |src| == 0
  {
    if |src| > 0 {
      var lines := DumpLines(src, length, indent);
      var first := Take(src, length);
      assert lines == [FormatLine(indent, 0, first)] + LinesFrom(Drop(src, length), length, length, Renderer(indent));
      assert |FormatNat(0, 16, 4)| == 4;
      assert |lines[0]| >= 4;
      assert |Join(lines, "\n")| >= |lines[0]|;
    }
  }

  /** The dump reads back: line `i` of a non-empty buffer's dump parses to
      the `i`-th offset `o` (which is `i * length`, by `OffsetIsProduct`)
      and the bytes `src[o : o + length]`, so the lines together give back
      every byte of `src` in order. */
  lemma DumpReadBack(src: seq<byte>, length: nat, indent: int, i: nat)
    requires length > 0 && |src| > 0 && i < LineCount(|src|, length)
    ensures var lines := Split(Dump(src, length, indent), '\n');
      var o := Offset(i, length);
      |lines| == LineCount(|src|, length)
      && o < |src|
      && ParseLine(lines[i], indent) == Some((o, Slice(src, o, o + length)))
  {
    ParseInvertsRender(indent);
    RenderSingleLine(indent);
    JoinedReadBack(src, length, Renderer(indent), (line: string) => ParseLine(line, indent), i);
  }

  /** The dump's line renderer never writes a line break. */
  lemma RenderSingleLine(indent: int)
    ensures forall count: nat, chunk: seq<byte> :: |chunk| >= 1 ==> '\n' !in FormatLine(indent, count, chunk)
  {
    forall count: nat, chunk: seq<byte> | |chunk| >= 1
      ensures '\n' !in FormatLine(indent, count, chunk)
    {
      FormatLineNoNewline(indent, count, chunk);
    }
  }

  /** When `render` writes single lines and `parse` undoes it on
      non-empty chunks, the rendered lines joined by line breaks split back
      into one line per chunk, and line `i` parses to the `i`-th offset and
      chunk. */
  lemma JoinedReadBack<T>(src: seq<T>, length: nat, render: (nat, seq<T>) -> string,
                          parse: string -> Option<(nat, seq<T>)>, i: nat)
    requires length > 0 && |src| > 0 && i < LineCount(|src|, length)
    requires forall count: nat, chunk: seq<T> :: |chunk| >= 1 ==> '\n' !in render(count, chunk)
    requires forall count: nat, chunk: seq<T> :: |chunk| >= 1 ==> parse(render(count, chunk)) == Some((count, chunk))
    ensures var lines := Split(Join(LinesFrom(src, length, 0, render), "\n"), '\n');
      var o := Offset(i, length);
      |lines| == LineCount(|src|, length)
      && o < |src|
      && parse(lines[i]) == Some((o, Slice(src, o, o + length)))
  {
    JoinedSplit(src, length, render);
    LineReadsBack(src, length, render, parse, i);
  }

  /** No rendered line holds a line break when `render` never writes one. */
  lemma LinesSingle<T>(src: seq<T>, length: nat, render: (nat, seq<T>) -> string)
    requires length > 0
    requires forall count: nat, chunk: seq<T> :: |chunk| >= 1 ==> '\n' !in render(count, chunk)
    ensures forall j :: 0 <= j < |LinesFrom(src, length, 0, render)| ==> '\n' !in LinesFrom(src, length, 0, render)[j]
  {
    var lines := LinesFrom(src, length, 0, render);
    LinesFromLength(src, length, 0, render);
    forall j | 0 <= j < |lines|
      ensures '\n' !in lines[j]
    {
      LineOfChunk(src, length, render, j);
      ChunkAt(src, length, j);
    }
  }

  /** Line `i` of the dump, before joining, parses to the `i`-th offset
      and chunk. */
  lemma DumpLineReads(src: seq<byte>, length: nat, indent: int, i: nat)
    requires length > 0 && i < LineCount(|src|, length)
    ensures var o := Offset(i, length);
      i < |DumpLines(src, length, indent)| && o < |src|
      && ParseLine(DumpLines(src, length, indent)[i], indent) == Some((o, Slice(src, o, o + length)))
  {
    ParseInvertsRender(indent);
    LineReadsBack(src, length, Renderer(indent), (line: string) => ParseLine(line, indent), i);
  }

  /** `ParseLine` undoes the dump's line renderer on every non-empty
      chunk. */
  lemma ParseInvertsRender(indent: int)
    ensures forall count: nat, chunk: seq<byte> :: |chunk| >= 1 ==>
      ParseLine(FormatLine(indent, count, chunk), indent) == Some((count, chunk))
  {
    forall count: nat, chunk: seq<byte> | |chunk| >= 1
      ensures ParseLine(FormatLine(indent, count, chunk), indent) == Some((count, chunk))
    {
      ParseFormatLine(indent, count, chunk);
    }
  }

  /** When `parse` undoes `render` on non-empty chunks, line `i` of the
      rendered lines parses back to the `i`-th offset and chunk. */
  lemma LineReadsBack<T>(src: seq<T>, length: nat, render: (nat, seq<T>) -> string,
                         parse: string -> Option<(nat, seq<T>)>, i: nat)
    requires length > 0 && i < LineCount(|src|, length)
    requires forall count: nat, chunk: seq<T> :: |chunk| >= 1 ==> parse(render(count, chunk)) == Some((count, chunk))
    ensures i < |LinesFrom(src, length, 0, render)| && Offset(i, length) < |src|
    ensures parse(LinesFrom(src, length, 0, render)[i])
      == Some((Offset(i, length), Slice(src, Offset(i, length), Offset(i, length) + length)))
  {
    LineAt(src, length, render, i);
  }

  /** In a space-separated row of two-character parts, part `k` sits at
      columns `3k` and `3k + 1`, and a space follows it unless it is the
      last. */
  lemma {:induction false} JoinPairsAt(ps: seq<string>, k: nat)
    requires forall i :: 0 <= i < |ps| ==> |ps[i]| == 2
    requires k < |ps|
    ensures |Join(ps, " ")| == 3 * |ps| - 1
    ensures Join(ps, " ")[3 * k .. 3 * k + 2] == ps[k]
    ensures k + 1 < |ps| ==> Join(ps, " ")[3 * k + 2] == ' '
  {
    if |ps| == 1 {
      assert Join(ps, " ") == ps[0];
    } else {
      var head := ps[0] + " ";
      var tail := Join(ps[1..], " ");
      assert Join(ps, " ") == head + tail;
      if k == 0 {
        JoinPairsAt(ps[1..], 0);
        assert (head + tail)[0..2] == ps[0];
      } else {
        JoinPairsAt(ps[1..], k - 1);
        SliceAfterPrefix(head, tail, 3 * k, 3 * k + 2);
      }
    }
  }

  /** Byte `k` of a chunk appears in its hex column at columns `3k` and
      `3k + 1`, followed by a space unless it is the last byte. */
  lemma HexFieldAt(chunk: seq<byte>, k: nat)
    requires k < |chunk|
    ensures |HexField(chunk)| == 3 * |chunk| - 1
    ensures HexField(chunk)[3 * k .. 3 * k + 2] == HexPair(chunk[k])
    ensures k + 1 < |chunk| ==> HexField(chunk)[3 * k + 2] == ' '
  {
    JoinPairsAt(HexPairs(chunk), k);
  }
}

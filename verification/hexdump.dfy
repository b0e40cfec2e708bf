/** The hex dumper: `dump(src, length, indent)` cuts a byte sequence into
    `length`-byte chunks and renders each as one line holding its offset,
    its bytes in hex and its printable rendering. */
module HexDump {
  import opened Bytes
  import opened Text
  import opened Numerals
  import opened HexCodec
  import opened Printable
  import opened Wrappers

  function Min(a: int, b: int): int { if a < b then a else b }

  /** The value of the dump loop's `count` after `i` chunks: `length` added
      `i` times. */
  function Offset(i: nat, length: nat): nat
  {
    if i == 0 then 0 else Offset(i - 1, length) + length
  }

  /** The running offset of chunk `i` is `i * length`. */
  lemma {:induction false} OffsetIsProduct(i: nat, length: nat)
    ensures Offset(i, length) == i * length
  {
    if i > 0 {
      OffsetIsProduct(i - 1, length);
      assert (i - 1) * length + length == i * length;
    }
  }

  /** One more chunk moves the offset on by `length`. */
  lemma OffsetShift(j: nat, length: nat)
    ensures Offset(j + 1, length) == Offset(j, length) + length
  {
  }

  /** Later chunks start at least one chunk further on. */
  lemma {:induction false} OffsetGrows(a: nat, b: nat, length: nat)
    requires a < b
    ensures Offset(a, length) + length <= Offset(b, length)
    decreases b - a
  {
    if a + 1 < b {
      OffsetGrows(a, b - 1, length);
    }
  }

  /** The chunks the dump loop cuts off, in order: `src[:length]`, then the
      chunks of `src[length:]`, until nothing is left. */
  function Chunks<T>(src: seq<T>, length: nat): (cs: seq<seq<T>>)
    requires length > 0
    ensures |cs| == 0 <==> |src| == 0
    decreases |src|
  {
    if |src| == 0 then [] else [Take(src, length)] + Chunks(Drop(src, length), length)
  }

  /** Chunk `i` is the slice `src[o : o + length]` that starts at the
      `i`-th offset `o`, which lies inside `src`. */
  lemma {:induction false} ChunkAt<T>(src: seq<T>, length: nat, i: nat)
    requires length > 0 && i < |Chunks(src, length)|
    ensures Offset(i, length) < |src|
    ensures Chunks(src, length)[i] == Slice(src, Offset(i, length), Offset(i, length) + length)
    decreases i
  {
    ChunkAtIs(src, length, i);
  }

  /** Chunk `i` of `src` starts at the `i`-th offset inside `src`. */
  ghost predicate ChunkIs<T>(src: seq<T>, length: nat, i: nat)
    requires length > 0 && i < |Chunks(src, length)|
  {
    Offset(i, length) < |src| && Chunks(src, length)[i] == Slice(src, Offset(i, length), Offset(i, length) + length)
  }

  lemma {:induction false} ChunkAtIs<T>(src: seq<T>, length: nat, i: nat)
    requires length > 0 && i < |Chunks(src, length)|
    ensures ChunkIs(src, length, i)
    decreases i
  {
    if i == 0 {
      assert Drop(src, 0) == src;
      ChunksCons(src, length);
    } else {
      ChunkAtIs(Drop(src, length), length, i - 1);
      ChunkAtStep(src, length, i);
    }
  }

  /** The induction step of `ChunkAt`: chunk `i` of `src` is chunk `i - 1`
      of what follows the first chunk. */
  lemma ChunkAtStep<T>(src: seq<T>, length: nat, i: nat)
    requires length > 0 && 0 < i < |Chunks(src, length)|
    requires i - 1 < |Chunks(Drop(src, length), length)|
    requires ChunkIs(Drop(src, length), length, i - 1)
    ensures ChunkIs(src, length, i)
  {
    assert Chunks(src, length)[i] == Chunks(Drop(src, length), length)[i - 1] by {
      ChunksCons(src, length);
    }
    NextChunk(src, length, i);
  }

  /** The chunks of a non-empty `src`: its first `length` elements, then
      the chunks of the rest. */
  lemma ChunksCons<T>(src: seq<T>, length: nat)
    requires length > 0 && |src| > 0
    ensures Chunks(src, length) == [Take(src, length)] + Chunks(Drop(src, length), length)
  {
  }

  /** A chunk that sits at the `(i - 1)`-th offset of what follows the
      first chunk sits at the `i`-th offset of `src`. */
  lemma NextChunk<T>(src: seq<T>, length: nat, i: nat)
    requires length > 0 && 0 < i < |Chunks(src, length)|
    requires i - 1 < |Chunks(Drop(src, length), length)|
    requires ChunkIs(Drop(src, length), length, i - 1)
    requires Chunks(src, length)[i] == Chunks(Drop(src, length), length)[i - 1]
    ensures ChunkIs(src, length, i)
  {
    var a := Offset(i - 1, length);
    SliceOfDrop(src, length, a, a + length);
    assert Offset(i, length) == length + a;
  }

  /** There are just enough chunks to cover `src`: the last one starts
      inside it and ends at or beyond its end. */
  lemma {:induction false} ChunksCover<T>(src: seq<T>, length: nat)
    requires length > 0 && |src| > 0
    ensures var n := |Chunks(src, length)|;
      Offset(n - 1, length) < |src| <= Offset(n, length)
    decreases |src|
  {
    var rest := Chunks(Drop(src, length), length);
    OffsetShift(|rest|, length);
    if |rest| > 0 {
      ChunksCover(Drop(src, length), length);
      OffsetShift(|rest| - 1, length);
    }
  }

  /** The number of lines a dump of `n` bytes has: one per `length`-byte
      step of the loop until nothing is left, `ceil(n / length)` by
      `LineCountIsCeil`. */
  function LineCount(n: nat, length: nat): nat
    requires length > 0
    decreases n
  {
    if n == 0 then 0 else 1 + LineCount(if n <= length then 0 else n - length, length)
  }

  /** There is one chunk per `length` bytes, rounding up. */
  lemma {:induction false} ChunksCount<T>(src: seq<T>, length: nat)
    requires length > 0
    ensures |Chunks(src, length)| == LineCount(|src|, length)
    decreases |src|
  {
    if |src| > 0 {
      ChunksCount(Drop(src, length), length);
    }
  }

  /** The line count is `ceil(n / length)`, written as Python would:
      `(n + length - 1) // length`. */
  lemma {:induction false} LineCountIsCeil(n: nat, length: nat)
    requires length > 0
    ensures LineCount(n, length) == (n + length - 1) / length
    decreases n
  {
    if n == 0 {
      DivUnique(length - 1, length, 0);
    } else if n <= length {
      DivUnique(n + length - 1, length, 1);
    } else {
      LineCountIsCeil(n - length, length);
      var q := (n - 1) / length;
      assert q * length <= n - 1 < q * length + length;
      assert (q + 1) * length == q * length + length;
      DivUnique(n + length - 1, length, q + 1);
    }
  }

  lemma DivUnique(x: nat, d: nat, q: nat)
    requires d > 0 && q * d <= x < q * d + d
    ensures x / d == q
  {
    var k := x / d;
    assert x == k * d + x % d;
    if k > q {
      MulMono(q + 1, k, d);
    } else if k < q {
      MulMono(k + 1, q, d);
    }
  }

  lemma {:induction false} MulMono(a: nat, b: nat, d: nat)
    requires a <= b
    ensures a * d <= b * d
    decreases b - a
  {
    if a < b {
      MulMono(a, b - 1, d);
      assert b * d == (b - 1) * d + d;
    }
  }

  /** The chunks concatenate back to the input. */
  lemma {:induction false} ChunksFlatten<T>(src: seq<T>, length: nat)
    requires length > 0
    ensures Flatten(Chunks(src, length)) == src
    decreases |src|
  {
    if |src| > 0 {
      ChunksFlatten(Drop(src, length), length);
      TakeDrop(src, length);
      var cs := Chunks(src, length);
      assert cs[1..] == Chunks(Drop(src, length), length);
    }
  }

  /** Every chunk but the last is exactly `length` bytes long. */
  lemma InnerChunkLength<T>(src: seq<T>, length: nat, i: nat)
    requires length > 0 && i + 1 < |Chunks(src, length)|
    ensures |Chunks(src, length)[i]| == length
  {
    var cs := Chunks(src, length);
    ChunkAt(src, length, i);
    ChunksCover(src, length);
    OffsetGrows(i, |cs| - 1, length);
  }

  /** The last chunk holds between one and `length` bytes. */
  lemma LastChunkLength<T>(src: seq<T>, length: nat)
    requires length > 0 && |src| > 0
    ensures var cs := Chunks(src, length);
      1 <= |cs[|cs| - 1]| <= length
  {
    ChunkAt(src, length, |Chunks(src, length)| - 1);
  }

  /** The two-digit hex pair of each byte of a chunk, in order. */
  function HexPairs(chunk: seq<byte>): (ps: seq<string>)
    ensures |ps| == |chunk|
    ensures forall k :: 0 <= k < |chunk| ==> ps[k] == HexPair(chunk[k])
  {
    if |chunk| == 0 then [] else [HexPair(chunk[0])] + HexPairs(chunk[1..])
  }

  /** The hex column of a dump line: the pairs separated by single spaces. */
  function HexField(chunk: seq<byte>): string
  {
    Join(HexPairs(chunk), " ")
  }

  /** `s` with every space removed. */
  function StripSpaces(s: string): (r: string)
    ensures ' ' !in r
  {
    if |s| == 0 then "" else (if s[0] == ' ' then "" else [s[0]]) + StripSpaces(s[1..])
  }

  lemma {:induction false} StripSpacesAppend(a: string, b: string)
    ensures StripSpaces(a + b) == StripSpaces(a) + StripSpaces(b)
  {
    if |a| == 0 {
      assert a + b == b;
    } else {
      var head := if a[0] == ' ' then "" else [a[0]];
      assert (a + b)[0] == a[0];
      assert (a + b)[1..] == a[1..] + b;
      assert StripSpaces(a + b) == head + StripSpaces(a[1..] + b);
      StripSpacesAppend(a[1..], b);
      assert StripSpaces(a) == head + StripSpaces(a[1..]);
    }
  }

  lemma {:induction false} StripSpacesDigits(s: string)
    requires AllDigits(s, 16)
    ensures StripSpaces(s) == s
  {
    if |s| > 0 {
      StripSpacesDigits(s[1..]);
      assert [s[0]] + s[1..] == s;
    }
  }

  /** The hex column of an `n`-byte chunk is `3n - 1` characters of
      lowercase digits and single spaces, with no line break, and with the
      spaces removed it is the hex encoding of the chunk. */
  lemma {:induction false} HexFieldShape(chunk: seq<byte>)
    requires |chunk| >= 1
    ensures |HexField(chunk)| == 3 * |chunk| - 1
    ensures StripSpaces(HexField(chunk)) == Hexlify(chunk)
    ensures '\n' !in HexField(chunk)
  {
    var p := HexPair(chunk[0]);
    StripSpacesDigits(p);
    DigitsNoNewline(p, 16);
    if |chunk| == 1 {
      assert HexField(chunk) == p;
      assert Hexlify(chunk) == p + Hexlify([]);
    } else {
      var rest := chunk[1..];
      HexFieldShape(rest);
      assert HexPairs(chunk) == [p] + HexPairs(rest);
      assert HexField(chunk) == p + " " + HexField(rest);
      StripSpacesAppend(p + " ", HexField(rest));
      StripSpacesAppend(p, " ");
    }
  }

  /** The hex columns of the dump lines for `cs`, spaces removed and run
      together. */
  function HexStream(cs: seq<seq<byte>>): string
  {
    if |cs| == 0 then "" else StripSpaces(HexField(cs[0])) + HexStream(cs[1..])
  }

  /** Reading the hex columns of a dump back, spaces removed and lines run
      together, gives `binascii.hexlify` of the whole input. */
  lemma {:induction false} HexStreamOfChunks(src: seq<byte>, length: nat)
    requires length > 0
    ensures HexStream(Chunks(src, length)) == Hexlify(src)
    decreases |src|
  {
    if |src| > 0 {
      var cs := Chunks(src, length);
      assert cs[0] == Take(src, length) && cs[1..] == Chunks(Drop(src, length), length) by {
        ChunksCons(src, length);
      }
      HexStreamOfChunks(Drop(src, length), length);
      HexFieldShape(Take(src, length));
      HexlifyAppend(Take(src, length), Drop(src, length));
      TakeDrop(src, length);
    }
  }

  /** The four spaces between the columns of a dump line. */
  const Gap: string := "    "

  /** One dump line: the indentation, the offset as at least four lowercase
      hex digits, the hex column and the printable column, the three
      separated by four spaces each. */
  function FormatLine(indent: int, count: nat, chunk: seq<byte>): string
  {
    Spaces(indent) + FormatNat(count, 16, 4) + Gap + HexField(chunk) + Gap + ToPrintable(chunk)
  }

  /** The lines the dump loop appends for the bytes `rest` still to be
      dumped when its counter stands at `count`, each chunk rendered by
      `render` from the counter and the chunk. */
  function LinesFrom<T>(rest: seq<T>, length: nat, count: nat, render: (nat, seq<T>) -> string): seq<string>
    requires length > 0
    decreases |rest|
  {
    if |rest| == 0 then []
    else [render(count, Take(rest, length))] + LinesFrom(Drop(rest, length), length, count + length, render)
  }

  /** The line renderer of `dump` for a given indentation. */
  function Renderer(indent: int): (nat, seq<byte>) -> string
  {
    (count: nat, chunk: seq<byte>) => FormatLine(indent, count, chunk)
  }

  /** The lines of `dump(src, length, indent)`. */
  function DumpLines(src: seq<byte>, length: nat, indent: int): seq<string>
    requires length > 0
  {
    LinesFrom(src, length, 0, Renderer(indent))
  }

  /** `dump(src, length, indent)`: the lines joined by line breaks. */
  function Dump(src: seq<byte>, length: nat, indent: int): string
    requires length > 0
  {
    Join(DumpLines(src, length, indent), "\n")
  }

  /** There is one line per chunk. */
  lemma {:induction false} LinesFromLength<T>(rest: seq<T>, length: nat, count: nat, render: (nat, seq<T>) -> string)
    requires length > 0
    ensures |LinesFrom(rest, length, count, render)| == |Chunks(rest, length)|
    decreases |rest|
  {
    if |rest| > 0 {
      LinesFromLength(Drop(rest, length), length, count + length, render);
    }
  }

  /** Line `i` renders chunk `i` at the counter's starting value plus the
      `i`-th offset. */
  lemma {:induction false} LinesFromAt<T>(rest: seq<T>, length: nat, count: nat, render: (nat, seq<T>) -> string, i: nat)
    requires length > 0 && i < |Chunks(rest, length)|
    ensures i < |LinesFrom(rest, length, count, render)|
    ensures LinesFrom(rest, length, count, render)[i] == render(count + Offset(i, length), Chunks(rest, length)[i])
    decreases i
  {
    LinesFromLength(rest, length, count, render);
    var tail := Drop(rest, length);
    var next := LinesFrom(tail, length, count + length, render);
    assert Chunks(rest, length) == [Take(rest, length)] + Chunks(tail, length);
    assert LinesFrom(rest, length, count, render) == [render(count, Take(rest, length))] + next;
    if i > 0 {
      LinesFromAt(tail, length, count + length, render, i - 1);
      OffsetShift(i - 1, length);
    }
  }

  /** One turn of the dump loop moves one line from the lines still to come
      to the lines produced. */
  lemma LoopStep<T>(lines: seq<string>, rest: seq<T>, length: nat, count: nat, render: (nat, seq<T>) -> string)
    requires length > 0 && |rest| > 0
    ensures lines + LinesFrom(rest, length, count, render)
      == (lines + [render(count, Take(rest, length))])
        + LinesFrom(Drop(rest, length), length, count + length, render)
  {
    var x := [render(count, Take(rest, length))];
    var next := LinesFrom(Drop(rest, length), length, count + length, render);
    assert LinesFrom(rest, length, count, render) == x + next;
    assert lines + (x + next) == (lines + x) + next;
  }

  /** The loop of `dump` for any line renderer: cut the first `length` bytes off
      the front, render it at offset `count`, advance `count` by `length`, until
      no bytes are left. */
  method RenderLoop<T>(src: seq<T>, length: nat, render: (nat, seq<T>) -> string) returns (lines: seq<string>)
    requires length > 0
    ensures lines == LinesFrom(src, length, 0, render)
  {
    lines := [];
    var count: nat := 0;
    var rest := src;
    while |rest| > 0
      invariant lines + LinesFrom(rest, length, count, render) == LinesFrom(src, length, 0, render)
      decreases |rest|
    {
      LoopStep(lines, rest, length, count, render);
      var line := Take(rest, length);
      rest := Drop(rest, length);
      lines := lines + [render(count, line)];
      count := count + length;
    }
    assert lines + [] == lines;
  }

  /** The dump as the source runs it: the loop renders one line per chunk
      with `FormatLine`, then the lines are joined by line breaks. */
  method DumpLoop(src: seq<byte>, length: nat, indent: int) returns (text: string)
    requires length > 0
    ensures text == Dump(src, length, indent)
  {
    var lines := RenderLoop(src, length, Renderer(indent));
    text := Join(lines, "\n");
  }
}

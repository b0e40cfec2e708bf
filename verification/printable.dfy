/** The printable rendering of the hex dump: `PY3_FILTER` and
    `to_printable`, Python 3 path. */
module Printable {
  import opened Bytes
  import opened Numerals

  /** Python 3's `str.isprintable()` for a code point below 256: the
      Latin-1 code points outside the control ranges (Unicode category Cc),
      the no-break space (Zs other than the ASCII space) and the soft
      hyphen (Cf). */
  predicate IsPrintableLatin1(b: byte)
  {
    !(b < 0x20 || 0x7F <= b <= 0xA0 || b == 0xAD)
  }

  /** Python 3's `repr(chr(b))`: single quotes around the character, except
      that a lone single quote is put in double quotes, backslash and the
      tab, newline and carriage-return characters use a two-character
      escape, and other non-printable code points use `\xhh`. */
  function ReprChar(b: byte): (r: string)
    ensures 3 <= |r| && (r[0] == '\'' || r[0] == '"') && r[|r| - 1] == r[0]
  {
    var c := b as char;
    if c == '\'' then "\"'\""
    else if c == '\\' then "'\\\\'"
    else if c == '\t' then "'\\t'"
    else if c == '\n' then "'\\n'"
    else if c == '\r' then "'\\r'"
    else if !IsPrintableLatin1(b) then "'\\x" + FormatNat(b, 16, 2) + "'"
    else "'" + [c] + "'"
  }

  /** The rule the table is built by: a byte keeps itself when Python 3's
      representation of its character is three characters long, that is,
      the character between two quotes with no escape. */
  predicate KeepsItself(b: byte)
  {
    |ReprChar(b)| == 3
  }

  /** The byte `to_printable` substitutes for a non-printable one. */
  const Dot: byte := 0x2E

  /** `PY3_FILTER`: for every byte value, the byte itself when it keeps
      itself, and `.` otherwise. */
  const Py3Filter: seq<byte> := seq(256, b requires 0 <= b < 256 => if KeepsItself(b) then b else Dot)

  /** Printable ASCII except the backslash, and the printable upper half of
      Latin-1 except the soft hyphen. */
  predicate InKeptRange(b: byte)
  {
    (0x20 <= b <= 0x7E && b != 0x5C) || (0xA1 <= b <= 0xFF && b != 0xAD)
  }

  /** Which bytes keep themselves: printable ASCII except the backslash, and
      the printable upper half of Latin-1 except the soft hyphen. */
  lemma KeepsItselfRanges(b: byte)
    ensures KeepsItself(b) <==> InKeptRange(b)
  {
    ByteHexWidth(b);
  }

  /** The table in closed form: 256 entries, each byte in the kept ranges
      mapping to itself and every other byte to `.`. */
  lemma FilterTable()
    ensures |Py3Filter| == 256
    ensures forall b: byte :: Py3Filter[b] == if InKeptRange(b) then b else Dot
  {
    forall b: byte ensures Py3Filter[b] == if InKeptRange(b) then b else Dot {
      KeepsItselfRanges(b);
    }
  }

  /** `to_printable`, translating through the table and decoding as
      Latin-1: one character per byte,
      the byte's own Latin-1 character when it lies in the kept ranges and
      `.` otherwise. */
  function ToPrintable(bs: seq<byte>): (s: string)
    ensures |s| == |bs|
    ensures forall i :: 0 <= i < |bs| ==> s[i] == if InKeptRange(bs[i]) then bs[i] as char else '.'
  {
    FilterTable();
    var translated := seq(|bs|, i requires 0 <= i < |bs| => Py3Filter[bs[i]]);
    seq(|translated|, i requires 0 <= i < |translated| => translated[i] as char)
  }

  /** The printable rendering never contains a line break, so each dump
      chunk stays on one line. */
  lemma ToPrintableNoNewline(bs: seq<byte>)
    ensures '\n' !in ToPrintable(bs)
  {
    var s := ToPrintable(bs);
    assert forall i :: 0 <= i < |s| ==> s[i] != '\n';
  }

  /** Sample entries of the table. */
  lemma FilterSamples()
    ensures ToPrintable([0x41]) == "A"
    ensures ToPrintable([0x7E]) == "~"
    ensures ToPrintable([0x27]) == "'"
    ensures ToPrintable([0x00]) == "."
    ensures ToPrintable([0x5C]) == "."
    ensures ToPrintable([0x80]) == "."
    ensures ToPrintable([0xA0]) == "."
  {
  }
}

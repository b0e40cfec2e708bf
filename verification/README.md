# NTDS.DIT header information, modelled in Dafny

This project models the core of ntdsxtract's `dsfileinformation` tool.

- `NTDSHeader(header)` reads a fixed set of fields from fixed offsets of
  the first bytes of an NTDS.DIT database file:
  - the checksum, signature, file format version, file type and DB time,
    shown as byte-reversed hex;
  - five log timestamps;
  - the Windows version quadruple and the page size, as little-endian
    unsigned 32-bit integers.
- `str()` of the header renders those fields as twelve labelled lines,
  then a heading, then `dump(header[:672], 16, 4)`.
- `dump` is the hex dumper of `ntds/lib/dump.py`. It cuts its input into
  chunks of `length` bytes. For each chunk it writes one line: the
  indentation, the running offset as at least four hex digits, the bytes
  as space-separated hex pairs, and the bytes again through the
  printable-character table `PY3_FILTER`.

The modules follow the program's structure:

| module | file | what it holds |
|---|---|---|
| `Bytes`, `Text`, `Numerals`, `Wrappers` | bytes.dfy, text.dfy, numerals.dfy, wrappers.dfy | Python slicing (`Take`, `Drop`, `Slice`), `"\n".join` and `split`, numerals in base 2 to 16, `Option` |
| `LittleEndian` | littleendian.dfy | `struct.unpack("I", …)` as a little-endian unsigned 32-bit decoder, and its encoder |
| `HexCodec` | hexcodec.dfy | `binascii.hexlify`, its inverse, and the byte-reversed hex of the header fields |
| `Printable` | printable.dfy | `PY3_FILTER` built from Python 3's `repr(chr(b))`, and `to_printable` |
| `HexDump` | hexdump.dfy | `dump`: chunking, line layout, the loop as a method |
| `DumpReader` | dumpreader.dfy | a parser for dump lines, proved to invert the line renderer |
| `NtdsHeader` | ntdsheader.dfy | `NTDSHeader.__init__` as `Decode` |
| `ReportLabels`, `HeaderReport` | labels.dfy, report.dfy | `NTDSHeader.__str__` as `Report` |

The timestamp decoder `dsGetDBLogTimeStampStr` is not part of this model.
It enters `Decode` as a parameter of type `seq<byte> -> string`: a total
function that returns a string for a slice of any length, the short
recovery slice included. The header properties hold for every such
function. The properties that read the report back line by line also
require that the decoder's five outputs contain no line break.

What the constructor does with the length of its buffer:

- `NTDSHeader.__init__` has no length check of its own.
- Each `struct.unpack("I", …)` raises when its slice holds fewer than
  four bytes. The last of them reads the page size at 236..240, so
  `Decode` returns `None` exactly when the buffer is shorter than 240
  bytes.
- The recovery-time slice 244..252 is cut short, as Python slicing does,
  when the buffer ends before byte 252, and it is passed to the timestamp
  decoder as it is.
- `self.header` keeps the whole buffer. `__str__` slices `[:672]` only when
  it renders the dump, and the model does the same.

## Model

| member | source | states |
|---|---|---|
| NtdsHeader.Decode | dsfileinformation.py:35-54 | `None` exactly when the buffer is shorter than 240 bytes (the end of the page-size read); otherwise the header holds every field at its offset, as `Decoded` lists them |
| NtdsHeader.DecodeExact | dsfileinformation.py:35-54 | `Decode` yields `h` if and only if the buffer is long enough and `h` has exactly the fields read from their offsets |
| NtdsHeader.DecodedUnique | dsfileinformation.py:35-54 | the field-by-field description determines the header: two headers that both satisfy it for one buffer are equal |
| NtdsHeader.HexFields | dsfileinformation.py:37-41 | checksum, signature, file format version and file type are `hexlify` of their four-byte slices reversed, eight characters each; the DB time is that of bytes 16..24, sixteen characters |
| NtdsHeader.ReadU32 | dsfileinformation.py:49-54 | the integer read at an offset is the one whose little-endian encoding is the four bytes there |
| NtdsHeader.ReversedHexShows | dsfileinformation.py:37-41 | the stored hex text decodes back to the field's bytes in reverse order |
| NtdsHeader.DecodeLocal | dsfileinformation.py:37-54 | two buffers that agree on bytes 0..24 and 216..240 give the same hex fields, version quadruple and page size |
| NtdsHeader.VersionPlacement | dsfileinformation.py:49-52 | four integers stored little-endian at 216..232 are read back as major, minor, build and service pack, in that order |
| NtdsHeader.SignatureScenario | dsfileinformation.py:38 | bytes `DE AD BE EF` at offset 4 give the signature `efbeadde` |
| LittleEndian.EncodeU32 | dsfileinformation.py:49-54 | four bytes, which decode back to the integer |
| LittleEndian.DecodeU32 | dsfileinformation.py:49-54 | the unsigned value of four bytes, least significant first; with `EncodeU32` and `EncodeDecode` it is a bijection between four-byte sequences and 32-bit values |
| LittleEndian.EncodeDecode | dsfileinformation.py:49-54 | encoding the integer decoded from any four bytes gives back those bytes |
| LittleEndian.BoundaryValues | dsfileinformation.py:49-54 | 0, 1 and 0xFFFFFFFF encode and decode as `00 00 00 00`, `01 00 00 00` and `FF FF FF FF` |
| HexCodec.HexPair | ntds/lib/dump.py:48 | two lowercase hex digits whose value is the byte |
| HexCodec.Hexlify | dsfileinformation.py:37-41 | twice as many lowercase hex digits as bytes |
| HexCodec.UnhexlifyHexlify | dsfileinformation.py:37-41 | decoding the hex of any bytes gives those bytes back |
| HexCodec.HexlifyUnhexlify | dsfileinformation.py:37-41 | any text that decodes as hex is the hex of what it decodes to |
| HexCodec.HexlifyAppend | dsfileinformation.py:37-41 | the hex of a concatenation is the concatenation of the hexes |
| HexCodec.HexlifyPair | dsfileinformation.py:37-41 | characters `2k..2k+2` of the hex are the pair of byte `k` |
| HexCodec.ReversedHex | dsfileinformation.py:37-41 | the reversed-field hex decodes back to the field reversed |
| HexCodec.ReversedHexPairs | dsfileinformation.py:37-41 | the `k`-th pair of the reversed-field hex shows the `k`-th byte from the end |
| Printable.KeepsItselfRanges | ntds/lib/dump.py:26 | `len(repr(chr(b))) == 3` exactly for printable ASCII except the backslash, and Latin-1 0xA1..0xFF except the soft hyphen |
| Printable.ReprChar | ntds/lib/dump.py:26 | Python 3's representation of a one-character string: always at least three characters, opening and closing with the same quote; escapes make it longer |
| Printable.KeepsItself | ntds/lib/dump.py:26 | the table's rule, representation three characters long; `KeepsItselfRanges` gives the bytes it holds for |
| Printable.FilterTable | ntds/lib/dump.py:26 | `PY3_FILTER` has 256 entries; each kept byte maps to itself, every other byte to `.` |
| Printable.ToPrintable | ntds/lib/dump.py:28-38 | one character per byte: the byte itself when it is kept, `.` otherwise |
| Printable.ToPrintableNoNewline | ntds/lib/dump.py:28-38 | the printable column never holds a line break |
| Printable.FilterSamples | ntds/lib/dump.py:26-31 | `A`, `~` and `'` are kept; NUL, backslash, 0x80 and no-break space become `.` |
| HexDump.Chunks | ntds/lib/dump.py:45-46 | no chunks exactly for empty input |
| HexDump.ChunkAt | ntds/lib/dump.py:45-46 | chunk `i` is the slice at the running offset of chunk `i`, which lies inside the input |
| HexDump.ChunksFlatten | ntds/lib/dump.py:45-46 | the chunks, joined again, are the input |
| HexDump.ChunksCover | ntds/lib/dump.py:45-46 | the last chunk starts inside the input, and the chunk after it would start at or past its end |
| HexDump.InnerChunkLength | ntds/lib/dump.py:46 | every chunk but the last is exactly `length` bytes long |
| HexDump.LastChunkLength | ntds/lib/dump.py:45-46 | the last chunk has 1 to `length` bytes |
| HexDump.ChunksCount | ntds/lib/dump.py:45-46 | there are as many chunks as the line count of the input length |
| HexDump.LineCountIsCeil | ntds/lib/dump.py:45-46 | that line count is `ceil(n / length)` |
| HexDump.OffsetIsProduct | ntds/lib/dump.py:43-55 | the `count` printed on line `i` is `i * length` |
| HexDump.HexPairs | ntds/lib/dump.py:48 | one `{:02x}` pair per byte, in order |
| HexDump.HexField | ntds/lib/dump.py:48 | the hex column of one line; `HexFieldShape` and `HexFieldAt` state its length `3n - 1`, where each pair sits and that it is `hexlify` of the chunk once the spaces are removed |
| HexDump.FormatLine | ntds/lib/dump.py:53 | one dump line; `ParseFormatLine` proves that the line determines its offset and chunk, `FormatLineIndent` and `FormatLineNoNewline` its indentation and that it is one line |
| HexDump.Dump | ntds/lib/dump.py:41-56 | the whole dump text; `DumpSplit`, `DumpReadBack` and `DumpEmpty` state what it holds, and `DumpLoop` that the loop computes it |
| HexDump.HexFieldShape | ntds/lib/dump.py:48 | the hex column of a chunk is `3n - 1` characters long, has no line break, and with spaces removed is `hexlify` of the chunk |
| HexDump.HexStreamOfChunks | ntds/lib/dump.py:45-48 | the hex columns of all lines, spaces removed and run together, are `hexlify` of the whole input |
| HexDump.LinesFromLength | ntds/lib/dump.py:45-54 | the loop appends one line per chunk |
| HexDump.LinesFromAt | ntds/lib/dump.py:45-55 | line `i` renders chunk `i` with the counter advanced by `i` chunk offsets |
| HexDump.LoopStep | ntds/lib/dump.py:45-55 | one iteration appends the line for the first chunk and leaves the rest for the counter advanced by `length` |
| HexDump.RenderLoop | ntds/lib/dump.py:41-55 | the `while src:` loop produces exactly the lines of the functional definition |
| HexDump.DumpLoop | ntds/lib/dump.py:41-56 | the loop, joined by line breaks, is `Dump` |
| DumpReader.ParseFormatLine | ntds/lib/dump.py:53 | parsing a rendered line gives back its offset and its chunk |
| DumpReader.ParseInvertsRender | ntds/lib/dump.py:53 | the same for every offset and every non-empty chunk, at a given indentation |
| DumpReader.FormatLineNoNewline | ntds/lib/dump.py:53 | a rendered line has no line break |
| DumpReader.FormatLineIndent | ntds/lib/dump.py:44-53 | a rendered line starts with `indent` spaces followed by a hex digit |
| DumpReader.HexFieldAt | ntds/lib/dump.py:48 | characters `3k..3k+2` of the hex column are the pair of byte `k`, followed by a space unless it is the last |
| DumpReader.DumpLineAt | ntds/lib/dump.py:41-55 | line `i` of the dump is the rendering of offset `i * length` and the slice there |
| DumpReader.ChunkNonEmpty | ntds/lib/dump.py:45-46 | no chunk is empty |
| DumpReader.DumpLineCount | ntds/lib/dump.py:45-54 | the dump has one line per chunk, `LineCount` of the input length, so none for empty input |
| DumpReader.DumpSplit | ntds/lib/dump.py:56 | splitting the dump at line breaks gives back its lines, one per chunk |
| DumpReader.DumpEmpty | ntds/lib/dump.py:45-56 | the dump is the empty string exactly for empty input |
| DumpReader.DumpReadBack | ntds/lib/dump.py:41-56 | each line of the dump text parses back to its offset and the bytes of its chunk |
| Numerals.ToDigits | ntds/lib/dump.py:48-53 | digits in the base whose value is the number, with no leading zero |
| Numerals.FormatNat | ntds/lib/dump.py:48-53 | `{:0Wx}`: the numeral padded with zeros to width `W`; its value is the number, and it is longer than `W` only when the numeral is |
| HeaderReport.Decimal | dsfileinformation.py:62-69 | `{}` of an integer: decimal digits whose value is the integer, with no leading zero |
| HeaderReport.DetachValue | dsfileinformation.py:72 | the value on the detach line is never empty; `DetachValueDirty` gives both directions of the substitution |
| HeaderReport.VersionText | dsfileinformation.py:64-69 | the Windows version as major.minor (build) Service pack sp, each in decimal; `VersionTextSingle` shows it is one line |
| HeaderReport.FieldValues | dsfileinformation.py:57-74 | the twelve values in label order; `ReportFieldLine` puts value `k` after label `k` on line `k` |
| HeaderReport.Report | dsfileinformation.py:56-77 | `str()` of the header; `ReportLines`, `ReportLineCount`, `ReportFieldLine` and the read-back lemmas state what its lines are |
| HeaderReport.DetachValueDirty | dsfileinformation.py:72 | the detach value is never empty; it is the dirty-state phrase exactly when the detach time is empty or is that phrase |
| HeaderReport.ReportLines | dsfileinformation.py:56-77 | split at line breaks, the report is the twelve field lines, the heading and the dump lines of `header[:672]` |
| HeaderReport.ReportLineCount | dsfileinformation.py:56-77 | the report has 13 lines plus one per 16 bytes of `header[:672]`: 55 lines for a buffer of 672 bytes or more |
| HeaderReport.ReportFieldLine | dsfileinformation.py:57-74 | line `k` is the `k`-th 21-character label followed by the `k`-th value |
| HeaderReport.ReportHexReadBack | dsfileinformation.py:37-63 | after its label, each hex line decodes to the bytes of its field in reverse order |
| HeaderReport.ReportDumpReadBack | dsfileinformation.py:75-76 | report line `13 + i` parses back to offset `16i` and bytes `16i..16i+16` of `header[:672]` |
| HeaderReport.DirtyStateLine | dsfileinformation.py:46-72 | the detach line shows the dirty-state phrase exactly when the decoder rendered the detach slice as empty (or as the phrase), so in particular for all-zero bytes the decoder renders as empty |
| HeaderReport.SignatureDumpScenario | dsfileinformation.py:75-76 | bytes `DE AD BE EF` at offset 4 show as `de ad be ef`, in stored order, at columns 24..35 of the first dump line |
| ReportLabels.LabelsShape | dsfileinformation.py:58-74 | each of the twelve labels is 21 characters long with no line break |
| Bytes.Reverse | dsfileinformation.py:37-41 | the reversed slice: same length, element `i` is element `n - 1 - i`; `ReverseReverse` makes it its own inverse |
| Bytes.Take | dsfileinformation.py:76 | the prefix slice `[:n]`, never failing: `min(len, n)` elements, and with `Drop` it splits the sequence back into itself (`TakeDrop`) |
| Bytes.Drop | ntds/lib/dump.py:46 | the suffix slice `[n:]`: what is left after `n` elements, empty when there are fewer |
| Bytes.Slice | dsfileinformation.py:37-54 | the slice `[a:b]`: exactly `s[a..b]` when `b` is inside, cut short at the end otherwise, empty when `a` is past the end |
| Text.Join | ntds/lib/dump.py:56 | joining with a separator; `SplitJoin` shows that splitting at a separator absent from the parts gives the parts back |
| Text.Spaces | ntds/lib/dump.py:44 | `n` spaces, and none for a negative `n` |

## Left out

- `main`, `parse_args` and `CustomParser` (dsfileinformation.py:80-115) are left out. They handle file reading, argument parsing, printing and exit codes, which are I/O.
- `dsGetDBLogTimeStampStr` is not part of this model. It is the parameter `timestamp` of `Decode`.
- The Python 2 paths are left out: `PY2_FILTER` and the `except ValueError` branches of `to_printable` and `dump` (ntds/lib/dump.py:25,32-33,49-50). Python 3 never reaches them for `bytes` input.
- The bare `except` in `to_printable` (ntds/lib/dump.py:34-37) prints a traceback and exits. It is left out because `translate` and `decode("latin-1")` cannot fail on bytes.
- `struct.unpack("I", …)` uses the host's byte order and size. It is modelled as little-endian and four bytes wide, which is the header's format.
- NtdsHeader.Decode: the constructor's exception on a short buffer is modelled as `None`, without the exception's type or message. For a buffer of 240 to 251 bytes, `Some` also rests on the timestamp decoder returning a string for a recovery slice shorter than eight bytes; that decoder is not part of this model, and whether it raises there is not modelled.
- HexDump.Dump: requires `length > 0`. With `length == 0` the source loops forever, and a negative `length` slices from the end.
- The default arguments of `dump` (`length=8`, `indent=0`, ntds/lib/dump.py:41) are not modelled: `Dump` always takes both, and the report passes 16 and 4.
- DumpReader.ParseLine is a reader written for the proofs, not a function of the source. It is only claimed to invert lines rendered from non-empty chunks.
- HeaderReport.ReportHexReadBack, HeaderReport.ReportDumpReadBack, HeaderReport.DirtyStateLine and HeaderReport.SignatureDumpScenario: these assume the decoded times contain no line break. Otherwise splitting the report at line breaks does not recover its lines.

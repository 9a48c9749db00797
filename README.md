# ca2aa protobuf export core, modelled in Dafny

ca2aa converts EPICS Channel Access archive data into the EPICS Archiver
Appliance's protobuf (`.pb`) file format. Each `.pb` file is a sequence of
lines:

- The first line is a `PayloadInfo` header that names the payload type.
- Every following line is one serialized sample message.

Protobuf bytes may contain line breaks, so every message is escaped before
it is written:

| payload byte | written as |
|---|---|
| ESC (0x1B) | ESC 0x01 |
| LF (0x0A) | ESC 0x02 |
| CR (0x0D) | ESC 0x03 |

A single LF then ends the line.

This project models four parts of the exporter:

- **The escaping output stream** (`escapingarraystream`). It is the
  zero-copy stream protobuf serializes into. Its `finalize` produces the
  escaped line.
- **The escape codec.** This is the byte transformation, together with the
  line decoder the Python test suite uses.
- **The path helpers of `pbeutil.cpp`.** These are the PV-name to
  file-name mapping and the directory creation walk.
- **The search of an existing output file for its last sample**
  (`pbsearch.h`). This includes the compile-time table from
  (DBR_TIME_* type, isarray) to protobuf class and PayloadType code.

## Modules

| module | file | contents |
|---|---|---|
| `Wrappers` | wrappers.dfy | `Option` and `Result` |
| `SeqSearch` | seq_search.dfy | `std::string::find_first_of` |
| `EscapeCodec` | escape_codec.dfy | `Escape`, `Unescape`, the line encoding and decoding, and their round trips |
| `PbStreams` | pbstreams.dfy | the class `EscapingArrayStream`, with the `plan_size` loop and the escaping copy loop as methods; the protobuf client as `WriteRecord` and `EncodeTwice` |
| `PbeUtil` | pbeutil.dfy | `pvpathname` and `createDirs` |
| `PbSearch` | pbsearch.dfy | the `dbrstruct` table, the `getline` loop and `getLastSample` |

## The stream and its buffers

The `std::vector<char>` buffers of the stream are byte sequences. The
class's methods reassign them, and growing a vector appends zero bytes.

The class invariant `Valid()` says the write position never passes the
end of `inbuf`.

`finalize` is proved to produce exactly `Escape(payload) + [LF]`. Its loops
are modelled as methods proved against the `Escape` and `CountSpecial`
functions:

- `plan_size` is `PlanSize`;
- the two-index copy loop over a fresh array is `EscapeInto`, with
  `PutEscaped` for one input byte.

## Parameters standing in for the environment

- **Separators.** The `pvseps` separator set is a parameter; its built-in
  value is `DefaultPvSeps`. `OSI_PATH_SEPARATOR` is also a parameter; the
  POSIX value is `PosixPathSep`.
- **`mkdir`.** The outcome of `mkdir(2)` for each directory comes from a
  function parameter.
- **The file.** A file is its byte content.
- **The header line.** The type code read from the header line comes from
  a function parameter. That code is the result of unescaping the line and
  running `ParseFromString` on it.
- **A data line.** Parsing a data line also comes from a function
  parameter. It returns the success flag together with the message as
  protobuf leaves it.

## Model

| member | source | states |
|---|---|---|
| SeqSearch.FindFirstOf | pbeApp/pbeutil.cpp:29 | The result is the first index at or after the start whose element is in the set. When there is none, no element from the start on is in the set (`npos`). |
| EscapeCodec.EscapeCode | pbeApp/pbstreams.cpp:66-71 | The second byte written for ESC, LF or CR is a code in 1..3. |
| EscapeCodec.UnescapeCode | pbeApp/testconvert.py:32-36 | The decoder table knows exactly the codes 1..3. Each known code maps back to the special byte whose escape code it is. |
| EscapeCodec.EscapeByte | pbeApp/pbstreams.cpp:55-71 | One input byte becomes two bytes exactly when it is special, and neither end of its output is a raw LF or CR. |
| EscapeCodec.Escape | pbeApp/pbstreams.cpp:52-72 | Reference definition of the escaping: the output is at least as long as the payload and at most twice as long. |
| EscapeCodec.Unescape | pbeApp/testconvert.py:31-38 | The regex substitution: a successful decoding never lengthens its input, and input without ESC passes through unchanged. |
| EscapeCodec.LStrip | pbeApp/testconvert.py:40 | `lstrip()`: the result is a suffix, every byte removed is whitespace, and the result does not start with whitespace. |
| EscapeCodec.RStrip | pbeApp/testconvert.py:40 | `rstrip()`: the result is a prefix, every byte removed is whitespace, and the result does not end with whitespace. |
| EscapeCodec.DecodeLineStripped | pbeApp/testconvert.py:39-40 | The decoder as written: a successful decoding is never longer than the line, and a line with no whitespace at either end decodes as plain unescaping. |
| EscapeCodec.EscapeLength | pbeApp/pbstreams.cpp:33-45 | The escaped length is the payload length plus one for each LF, CR or ESC. |
| EscapeCodec.EscapeAppend | pbeApp/pbstreams.cpp:52-72 | Escaping works byte by byte: the escape of a concatenation is the concatenation of the escapes. |
| EscapeCodec.CountSpecialAppend | pbeApp/pbstreams.cpp:36-43 | The count of special bytes is additive over concatenation. |
| EscapeCodec.EscapeSnoc | pbeApp/pbstreams.cpp:52-72 | Escaping one more byte appends that byte's escape. |
| EscapeCodec.EscapePrefixLength | pbeApp/pbstreams.cpp:51-52 | The escape of a prefix never exceeds the planned size of the whole. |
| EscapeCodec.EscapeWellEscaped | pbeApp/pbstreams.cpp:52-72 | An escaped body holds no raw LF or CR, and every ESC in it is followed by a code in 1..3. |
| EscapeCodec.EncodeLineSingleTerminator | pbeApp/pbstreams.cpp:47-76 | A finalized record is one line: its last byte is LF and no other byte is LF or CR. |
| EscapeCodec.UnescapeEscape | pbeApp/testconvert.py:31-38 | Round trip: decoding the escape of any payload gives the payload back. |
| EscapeCodec.EscapeInjective | pbeApp/pbstreams.cpp:52-72 | Distinct payloads give distinct lines. |
| EscapeCodec.UnescapeWellEscaped | pbeApp/testconvert.py:31-38 | Converse round trip: every well-escaped body decodes, and escaping the result gives the body back. |
| EscapeCodec.UnescapeRejectsUnknownCode | pbeApp/testconvert.py:37-38 | An ESC followed by a code outside the table (and not by LF) makes the decoding fail, as the KeyError does. |
| EscapeCodec.DecodeEncodeLine | pbeApp/testconvert.py:39-40 | Corrected line decoder: drop the LF terminator, then unescape. It inverts the line encoding for every payload. |
| EscapeCodec.StripLosesPayloadSpace | pbeApp/testconvert.py:39-40 | The decoder as written strips first, so the record of the payload [0x20] decodes to the empty payload. |
| EscapeCodec.NoSpecialEscape | pbeApp/pbstreams.cpp:62-64 | A payload without LF, CR or ESC is copied unchanged. |
| EscapeCodec.EscapeAroundLF | pbeApp/pbstreams.cpp:52-73 | Two plain payloads around one LF encode as the first payload, ESC 0x02, the second payload, then LF. |
| EscapeCodec.EscapeHelloWorld | pbeApp/testPB.cpp:15 | "hello\nworld" finalizes to "hello", ESC 0x02, "world", LF. |
| EscapeCodec.TestExpectationDiffers | pbeApp/testPB.cpp:16 | The expected "hello" ESC 0x01 "world" LF is not what finalize produces. |
| PbStreams.PlanSize | pbeApp/pbstreams.cpp:33-45 | The counted size is the length plus the number of special bytes, which is exactly the escaped length. |
| PbStreams.EscapingArrayStream.constructor | pbeApp/pbstreams.cpp:4-8 | A new stream has empty buffers and position 0. |
| PbStreams.EscapingArrayStream.Reset | pbeApp/pbstreams.h:21-26 | Reset returns to the state of a new stream. |
| PbStreams.EscapingArrayStream.Next | pbeApp/pbstreams.cpp:10-20 | Next always succeeds. When fewer than 32 bytes remain, the buffer first grows by 64 zero bytes. The region handed out runs from the old position to the end and holds at least 32 bytes. The position moves to the end, and the bytes already written are kept. |
| PbStreams.EscapingArrayStream.BackUp | pbeApp/pbstreams.cpp:22-25 | The position moves back by `count`, and the invariant is kept. |
| PbStreams.EscapingArrayStream.ByteCount | pbeApp/pbstreams.cpp:27-31 | The byte count is the position and never exceeds the buffer. |
| PbStreams.EscapingArrayStream.Finalize | pbeApp/pbstreams.cpp:47-76 | The output line is the escape of the written bytes plus one LF, and its length matches `plan_size` + 1. The input buffer is emptied and the position reset. |
| PbStreams.EscapeInto | pbeApp/pbstreams.cpp:52-72 | The copy loop with read and write indexes fills a buffer of the planned size with exactly `Escape(src)`. |
| PbStreams.PutEscaped | pbeApp/pbstreams.cpp:55-71 | One loop step writes the byte's escape at the write index and advances the index by its length. |
| PbStreams.WriteRecord | pbeApp/testPB.cpp:69-73 | Serializing through Next/BackUp appends exactly the payload to the written bytes and leaves the finished line `outbuf` as it was. |
| PbStreams.EncodeTwice | pbeApp/testPB.cpp:65-96 | One stream used twice yields the same line both times: the escaped payload with one LF, of length `|payload| + specials + 1`. |
| PbeUtil.PathNameAt | pbeApp/pbeutil.cpp:24-37 | The mapped name keeps the length. A separator becomes the path separator, and every other character stays. |
| PbeUtil.PathNameCharacterized | pbeApp/pbeutil.cpp:24-37 | PathName is the only string of the same length that maps each position with MapSep. |
| PbeUtil.PathNameNoSeparators | pbeApp/pbeutil.cpp:29-31 | When the path separator is not itself a separator, no separator is left. |
| PbeUtil.PathNameIdempotent | pbeApp/pbeutil.cpp:24-37 | Mapping a mapped name again changes nothing. |
| PbeUtil.PathNameStringExample | pbeApp/testconvert.py:124-125 | "a:string:pv" maps to "a/string/pv" with the built-in separators. |
| PbeUtil.PathNamePvCounterExample | pbeApp/testconvert.py:134-135 | "pv-counter" maps to "pv/counter" with the built-in separators. |
| PbeUtil.PvPathName | pbeApp/pbeutil.cpp:24-37 | The find_first_of loop, including its early stop at the end, returns exactly PathName of the name. |
| PbeUtil.DirPrefixesShape | pbeApp/pbeutil.cpp:42-46 | Every attempted directory is a proper prefix of the path that ends just before a separator. They come shortest first, and every separator yields one. |
| PbeUtil.DirPrefixesNoSeparator | pbeApp/pbeutil.cpp:42-46 | Nothing is attempted exactly when the path has no separator, and the full path is never attempted. |
| PbeUtil.DirPrefixesSkip | pbeApp/pbeutil.cpp:43 | Positions without a separator contribute no attempt. |
| PbeUtil.DirPrefixesStep | pbeApp/pbeutil.cpp:43-46 | The next separator found contributes the prefix up to it, and the walk resumes after it. |
| PbeUtil.MessagesSnoc | pbeApp/pbeutil.cpp:47-55 | The messages of one more attempt are appended after the earlier ones. |
| PbeUtil.MessagesReport | pbeApp/pbeutil.cpp:47-55 | EEXIST is never reported. Every created directory is announced, and every other failure is reported with its errno. |
| PbeUtil.MessageFor | pbeApp/pbeutil.cpp:47-55 | One mkdir gives at most one message. It gives none exactly on EEXIST, and the message is an announcement exactly when the directory was made. |
| PbeUtil.CreateDirs | pbeApp/pbeutil.cpp:40-57 | The walk attempts exactly DirPrefixes in order and emits exactly their messages. |
| PbSearch.DbrStruct | pbeApp/pbsearch.h:22-38 | Every code is in 0..13. The code is at least 7 exactly for arrays, and the class is a Vector class exactly for arrays. |
| PbSearch.EntryForCode | pbeApp/pbsearch.h:25-38 | Reading the table backwards is defined exactly on 0..13 and gives back the entry's own code. |
| PbSearch.DbrStructBijective | pbeApp/pbsearch.h:25-38 | Every (kind, isarray) pair is recovered from its code. |
| PbSearch.DbrStructInjective | pbeApp/pbsearch.h:25-38 | No two table entries share a code. |
| PbSearch.CharKindIsNotNumeric | pbeApp/pbsearch.h:26-33 | The char kind maps to ScalarByte and VectorChar, neither of them numeric. |
| PbSearch.GetLine | pbeApp/pbsearch.h:55 | `good()` holds exactly when an LF ended the line. The line is the bytes before that LF, and the LF is consumed. Otherwise everything is consumed. |
| PbSearch.LinesDecompose | pbeApp/pbsearch.h:114 | The lines read are a prefix of the file, and what is left contains no LF. |
| PbSearch.LinesOfJoin | pbeApp/pbsearch.h:114 | LF-free lines, each written with an LF and followed by an LF-free tail, read back as themselves. |
| PbSearch.AnyParseFailsSnoc | pbeApp/pbsearch.h:118-123 | A parse failure occurs with one more line exactly when the new line or an earlier one fails. |
| PbSearch.GetLastSample | pbeApp/pbsearch.h:43-127 | An unreadable header throws CannotDecodeHeader, and a wrong type code throws IncompatibleDataType. Otherwise every later line is parsed in order, the result is the last line's message (or the default one), and exactly one warning is logged when any parse fails. |
| PbSearch.ScanDataLines | pbeApp/pbsearch.h:113-124 | The loop parses exactly the remaining lines. The sample is the last line's message, and the warning counter is 1 exactly when some line failed. |
| PbSearch.LastSample | pbeApp/pbsearch.h:43-127 | Reference definition of getLastSample. CannotDecodeHeader happens exactly when the file has no LF. IncompatibleDataType carries the table's code as the expected one and a different code as the one found. |
| PbSearch.LastSampleOfRecords | pbeApp/pbsearch.h:61-126 | For a header, records and a partial tail, only the header's type is checked, and the result is the last complete record's parse. |
| PbSearch.LastSampleIgnoresUnterminatedTail | pbeApp/pbsearch.h:114 | An unterminated last line is never read: appending it changes nothing. |

## Left out

- `getYear`, `getStartOfYear` and `operator<<` of pbeApp/pbeutil.cpp:59-88 are not modelled. They convert a given timestamp through libc's `gmtime_r`, `timegm` and `ctime`, which are foreign calendar code.
- The C++ `unescape_plan`/`unescape` pair that `getLastSample` calls is not part of this model, because it is declared in pbeutil.h but not defined in the files modelled. The header and line decoders are function parameters. `EscapeCodec.DecodeLine` is the reference decoder proved to invert the encoding.
- Protobuf serialization and `ParseFromString` are not modelled. They are external code, so messages are opaque values and payloads are byte sequences.
- `ParseFromString(&buf[0])` is given a C string, which stops at the first NUL byte. The model passes the raw, still-escaped line from `getline` to the `headerType` and `parse` parameters. Those parameters stand for unescaping plus `ParseFromString`, so the NUL cut-off falls inside them and the model does not expose it.
- PV names, `pvseps` and paths are `string` values in PbeUtil. Each `char` stands for one byte of a NUL-free C string. `find_first_of` in pbeApp/pbeutil.cpp:29 and 43 compares single bytes, so a multi-byte separator would match single bytes of other characters; the model does not capture this.
- The environment override of `pvseps` is not modelled; the separator set is a parameter.
- `mkdir(2)`, `perror` and `std::cerr` are not modelled as I/O. The outcome of `mkdir(2)` is a parameter, and the messages are a returned sequence.
- `std::ifstream` failing to open a file is not modelled separately. Such a file reads as empty, so the header fails as it does in the source.
- The commented-out block of pbeApp/pbsearch.h:78-111 (reading only the tail of large files) is not modelled, because it is not compiled.
- pbeApp/pbexport.cpp is not modelled. It is a stale stub: its `main` only returns 0, and its own copies of `pvpathname` and `getYear` do not compile. pbeApp/pbeutil.cpp supersedes those copies.
- exportall.py, listpvs and the test-data generator are not modelled. They are drivers around the core.
- The severity state machine, metadata, year rollover and resume logic of the full exporter are not modelled. Their code is not part of this model.
- EscapingArrayStream.Next: the region size is an unbounded `nat`. The conversion of `size_t` to the `int *size` is not modelled.
- EscapingArrayStream.BackUp: the model requires `count <= pos` rather than protobuf's narrower "at most the size of the last region". It does not model the `size_t` wrap-around that a larger `count` would cause.
- The `dbrtype` typedefs of the `dbrstruct` table are not modelled. They are C struct types with no behaviour here.
- ScanDataLines is the data-line loop of `getLastSample` split into its own method. GetLastSample calls it once, with the bytes after the header line.
- For the second escape code, the model follows pbeApp/pbstreams.cpp:69, where LF becomes ESC 0x02. It does not follow the expectation at pbeApp/testPB.cpp:16 (see Findings).

## Findings

| source | as written | input that shows it | evidently intended | confidence | as-written member | corrected member |
|---|---|---|---|---|---|---|
| pbeApp/testPB.cpp:16 | expects "hello" ESC 0x01 "world" LF for "hello\nworld" | "hello\nworld" | finalize writes ESC 0x02 for LF (pbeApp/pbstreams.cpp:69), so the expectation should read ESC 0x02 | high, not executed | EscapeCodec.TestExpectationDiffers | EscapeCodec.EscapeHelloWorld |
| pbeApp/testconvert.py:39-40 | `unescape` strips whitespace from the line before unescaping | the payload [0x20], written as [0x20, LF] | remove only the LF terminator, then unescape, so that payload bytes 0x09, 0x0B, 0x0C and 0x20 survive at the ends (0x0A and 0x0D are always escaped) | high, not executed | EscapeCodec.StripLosesPayloadSpace | EscapeCodec.DecodeEncodeLine |

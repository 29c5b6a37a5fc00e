# Chunked memory-mapped streams of the EBCDIC CSV transcoder, in Dafny

This project models the core of the transcoder. The transcoder reads a huge
input file and writes a huge output file through memory mappings, one bounded
window at a time, and explicitly releases each mapping before it takes the
next. The project also models two small pure helpers: the CSV row writer of the
uniVocity strategy, and the charset-name candidate builder of the charset
tester.

## Files and modules

- `windows.dfy`: holds `Wrappers` (a nullable `Option`, `Min`, `Max`) and
  `MappedWindows`. `MappedWindows` defines a window (`start`, `capacity`,
  `cursor`) and a history of `Mapped`/`Released` events. It also proves that an
  alternating history never has two live mappings.
- `input_stream.dfy`: `ChunkedInput`, the read side (`ChunkedMappedInputStream`).
- `output_stream.dfy`: `ChunkedOutput`, the write side (`ChunkedMappedOutputStream`).
- `round_trip.dfy`: `StreamRoundTrip`. It proves that bytes written and then read
  back come out unchanged, and it works through the "hello" example.
- `csv_row.dfy`: `CsvRow`, the private `writeRow` of `UniVocityCsvParserStrategy`,
  plus a field reader that serves as its inverse.
- `charset_candidates.dfy`: `CharsetCandidates`, `CharsetTester.buildCandidates`.

## How the model is built

- Each stream is an immutable datatype. Each operation is a function that returns
  the next state together with the value the Java method returns. The file is a
  `seq<bv8>`, and its size is the sequence's length.
- Every map call and every release appends an event to the stream's `log` field.
  Releasing a null mapping appends nothing, which matches `unmap(null)` being a
  no-op. "At most one live mapping" is stated as "the log alternates
  map/release and ends with the live window's map".
- Each stream has two invariants:
  - `Valid` for the input stream, `Shape` for the output stream: the window
    lies inside the file, and the cursor lies inside the window.
  - `Recorded`: the history alternates, and the live window is the last one
    mapped. On the read side, the mapped regions also tile the file up to
    `position`.

  `Recorded` is proved for every stream that `Open` and any run of calls can
  reach. That is what lets `Close` rely on it.
- The read side's `position` is the end of the current window, as in the source.
  The offset of the next byte handed out is `Consumed`.
- The write side stores bytes straight into `file`, as a mapped buffer does.
  `Written` is `mappingStart` plus the live window's cursor.
- The output file is opened with `CREATE` but without `TRUNCATE_EXISTING`.
  `ChunkedOutput.Open` therefore takes the file's earlier contents as a
  parameter. The final-content theorem holds for any earlier contents.
- The read side's `while` loops become recursive functions. Their termination
  measure is the bytes left before `position`, then whether a window is live.
  The write loop's measure is the bytes still pending.
- Read windows are exactly `min(chunkSize, fileSize - position)` bytes.
- In the output stream's `mapNext`, `FileChannel.truncate` to a larger size
  leaves the file unchanged. The file grows because `map` in `READ_WRITE` mode
  extends it to cover the requested region. The model grows the file with zero
  bytes to at least `mappingStart + max(minSize, chunkSize)`.

## Model

| member | source | states |
|---|---|---|
| MappedWindows.AlternatingStep | src/main/java/com/example/transcoder/ChunkedMappedOutputStream.java:42-64 | releasing the live window and then mapping the next keeps map/release strictly alternating, with the new window as the live one |
| MappedWindows.AtMostOneLive | src/main/java/com/example/transcoder/ChunkedMappedInputStream.java:42-53 | at every point of an alternating history, the number of live mappings is 0 or 1 |
| ChunkedInput.MapNext | src/main/java/com/example/transcoder/ChunkedMappedInputStream.java:42-53 | the old window is released before the new one is mapped; the new window starts at `position` and has `min(chunkSize, fileSize - position)` bytes; `position` advances by exactly that and never passes the file size; there is no window exactly when `position >= fileSize`; windows tile the file from offset 0 |
| ChunkedInput.MapNextRecorded | src/main/java/com/example/transcoder/ChunkedMappedInputStream.java:42-53 | mapNext keeps the history invariant: the old window is released before the next is mapped, and the next starts where the previous region ended |
| ChunkedInput.Open | src/main/java/com/example/transcoder/ChunkedMappedInputStream.java:33-40 | the constructor maps `min(chunkSize, fileSize)` bytes at 0; an empty file has no window at once (end of stream), whatever the chunk size |
| ChunkedInput.ReadByte | src/main/java/com/example/transcoder/ChunkedMappedInputStream.java:55-65 | returns -1 exactly when every byte has been handed out, and otherwise the next file byte as 0..255, advancing by one; after -1 no window is live; with no window the call changes nothing |
| ChunkedInput.CopyFromWindow | src/main/java/com/example/transcoder/ChunkedMappedInputStream.java:79-84 | copies `min(len, remaining)` bytes of the live window into `b[off..]`, and they are the next file bytes |
| ChunkedInput.ReadLoop | src/main/java/com/example/transcoder/ChunkedMappedInputStream.java:72-88 | for `len > 0`: skips exhausted windows, then returns 1..len bytes from a single window (the request is met or that window is used up), or -1 exactly at end of file |
| ChunkedInput.ReadBulk | src/main/java/com/example/transcoder/ChunkedMappedInputStream.java:67-89 | the source's bulk read: -1 exactly when `len == 0` or at end of file (never 0); otherwise 1..len next file bytes copied to `b[off..]`, all from the window now live |
| ChunkedInput.ZeroLengthReadWitness | src/main/java/com/example/transcoder/ChunkedMappedInputStream.java:72-88 | a 3-byte file opened with chunk size 4 still has bytes left, yet a zero-length bulk read returns -1 |
| ChunkedInput.ZeroLengthReadReportsEnd | src/main/java/com/example/transcoder/ChunkedMappedInputStream.java:67-89 | on every stream, bytes left or not, a zero-length bulk read returns -1 |
| ChunkedInput.ReadBulkPerContract | src/main/java/com/example/transcoder/ChunkedMappedInputStream.java:67-89 | corrected bulk read: 0 exactly for `len == 0`, -1 exactly for `len > 0` at end of file, otherwise the next 1..len file bytes |
| ChunkedInput.PerContractAgreesOnNonEmpty | src/main/java/com/example/transcoder/ChunkedMappedInputStream.java:67-89 | the corrected and the as-written bulk read agree on every request of at least one byte |
| ChunkedInput.Close | src/main/java/com/example/transcoder/ChunkedMappedInputStream.java:91-98 | close releases the current window (nothing when there is none), leaving an alternating history with no live mapping |
| ChunkedInput.OneLiveMappingPerRun | src/main/java/com/example/transcoder/ChunkedMappedInputStream.java:33-98 | for any run of `read` calls from the constructor on, the history invariant holds, and after close the history alternates, never has two live mappings at once, and ends with none |
| ChunkedInput.ReadToEnd | src/main/java/com/example/transcoder/ChunkedMappedInputStream.java:55-65 | repeated `read()` until -1 yields exactly the file bytes from the current offset to the end, in order |
| ChunkedInput.ReadWholeFile | src/main/java/com/example/transcoder/ChunkedMappedInputStream.java:33-65 | reading a freshly opened stream to the end yields the whole file, for every positive chunk size and for an empty file with any chunk size |
| ChunkedInput.Drive | src/main/java/com/example/transcoder/ChunkedMappedInputStream.java:55-89 | with the corrected bulk read: any mix of `read()` and bulk reads hands out the file's bytes in order, with none skipped or repeated; once a call reports end of stream, the whole file has been handed out |
| ChunkedInput.DriveAsWritten | src/main/java/com/example/transcoder/ChunkedMappedInputStream.java:55-89 | with the bulk read as written: the bytes handed out are still the file's next bytes in order; a reported end of stream means the file is used up unless some call of the run asked for zero bytes |
| ChunkedInput.AsWrittenRunAgrees | src/main/java/com/example/transcoder/ChunkedMappedInputStream.java:67-89 | the run as written and the corrected run leave the same stream and hand out the same bytes; the run as written reports end of stream exactly when the corrected one does or some call asked for zero bytes |
| ChunkedInput.DriveThenDrain | src/main/java/com/example/transcoder/ChunkedMappedInputStream.java:55-89 | after any run of calls, the bytes returned so far plus the rest read with `read()` are exactly the file |
| ChunkedInput.EndOfStreamIsSticky | src/main/java/com/example/transcoder/ChunkedMappedInputStream.java:57-64 | at end of stream, any number of further `read()` calls return only -1 and hand out no byte |
| ChunkedOutput.MapNext | src/main/java/com/example/transcoder/ChunkedMappedOutputStream.java:42-66 | `mappingStart` grows by exactly the old window's cursor, so it equals the bytes written; the new window has `max(minSize, chunkSize)` bytes; the file only grows and keeps its bytes, and covers the new window; release comes before map |
| ChunkedOutput.MapNextRecorded | src/main/java/com/example/transcoder/ChunkedMappedOutputStream.java:42-66 | mapNext releases the live window before it maps the next one, so the history stays alternating with the new window live |
| ChunkedOutput.Open | src/main/java/com/example/transcoder/ChunkedMappedOutputStream.java:31-40 | the first window has `max(1, chunkSize) >= 1` bytes at offset 0 and nothing has been written yet |
| ChunkedOutput.Put | src/main/java/com/example/transcoder/ChunkedMappedOutputStream.java:85 | storing into the live window appends the data to the written bytes and leaves the window and history alone |
| ChunkedOutput.WriteByte | src/main/java/com/example/transcoder/ChunkedMappedOutputStream.java:68-74 | remaps, with size `max(1, chunkSize)`, exactly when the window is full; appends exactly the low byte of `b` |
| ChunkedOutput.FillWindow | src/main/java/com/example/transcoder/ChunkedMappedOutputStream.java:81-87 | one pass of the bulk loop stores `min(free, remaining)` bytes in the live window, leaving window and history alone; when the window is full it releases it and maps `max(remaining, chunkSize)` bytes at the written offset, then stores all pending bytes; the next source bytes land in order |
| ChunkedOutput.WriteLoop | src/main/java/com/example/transcoder/ChunkedMappedOutputStream.java:78-88 | the loop stores all `remaining` bytes, in order, after what was written before |
| ChunkedOutput.WriteLoopRemaps | src/main/java/com/example/transcoder/ChunkedMappedOutputStream.java:78-88 | when the pending bytes fit in the live window the history is unchanged; otherwise the loop fills the free space, releases the window once, and maps one window of `max(remaining - free, chunkSize)` bytes at the offset written so far |
| ChunkedOutput.WriteBulk | src/main/java/com/example/transcoder/ChunkedMappedOutputStream.java:76-89 | `write(b, off, len)` appends exactly `b[off..off+len]`; it remaps only when `len` exceeds the free space, and then exactly once, to a window of `max(len - free, chunkSize)` bytes after the free space is filled |
| ChunkedOutput.Close | src/main/java/com/example/transcoder/ChunkedMappedOutputStream.java:91-113 | the last cursor is committed, the window released, and the file cut to exactly the bytes written, with no padding; the history still alternates and no mapping is left live |
| ChunkedOutput.Apply | src/main/java/com/example/transcoder/ChunkedMappedOutputStream.java:68-89 | any run of `write` calls appends exactly their bytes, in call order |
| ChunkedOutput.OneLiveMappingPerWrite | src/main/java/com/example/transcoder/ChunkedMappedOutputStream.java:31-113 | for any run of `write` calls from the constructor on, the history invariant holds, and after close the history alternates, never has two live mappings at once, and ends with none |
| ChunkedOutput.WriteFile | src/main/java/com/example/transcoder/ChunkedMappedOutputStream.java:31-113 | open, write, close: the file holds exactly the bytes passed to `write`, in call order, whatever it held before and whatever the chunk size (so its length is 0 when nothing was written) |
| StreamRoundTrip.WriteThenRead | src/main/java/com/example/transcoder/ChunkedMappedOutputStream.java:91-113 | a file written, closed and reopened for reading yields exactly the bytes written, for any write chunk size and any read chunk size the input stream accepts |
| StreamRoundTrip.HelloInWindowsOfTwo | src/main/java/com/example/transcoder/ChunkedMappedOutputStream.java:76-113 | "hello" written with chunk size 2 gives a 5-byte file holding exactly "hello" |
| CsvRow.UnescapeEscape | src/main/java/com/example/transcoder/UniVocityCsvParserStrategy.java:96 | collapsing doubled quotes undoes the doubling |
| CsvRow.EncodeField | src/main/java/com/example/transcoder/UniVocityCsvParserStrategy.java:91-100 | null is written as ""; the field is quoted exactly when it holds the delimiter, `'\n'` or the quote (a lone `'\r'` does not count); an unquoted field is written verbatim; a quoted one starts and ends with the quote, every quote inside it is doubled, and un-escaping the inside restores the field |
| CsvRow.EscapeUnescape | src/main/java/com/example/transcoder/UniVocityCsvParserStrategy.java:96 | a text whose quotes are all doubled is the escaping of its un-escaping, so the inside of a quoted field is exactly the field with each quote doubled |
| CsvRow.WriteRow | src/main/java/com/example/transcoder/UniVocityCsvParserStrategy.java:88-103 | the row always ends in one `'\n'`; a zero-field row is just `"\n"` |
| CsvRow.ReadEncodedField | src/main/java/com/example/transcoder/UniVocityCsvParserStrategy.java:91-100 | a field reader recovers each written field and stops exactly at the next delimiter or newline |
| CsvRow.RowRoundTrip | src/main/java/com/example/transcoder/UniVocityCsvParserStrategy.java:88-103 | for a delimiter, quote and newline that are pairwise distinct, reading a written row of at least one field gives back every field value, in order |
| CsvRow.EmptyRowsCoincide | src/main/java/com/example/transcoder/UniVocityCsvParserStrategy.java:89-102 | a row of no fields and a row of one empty field are both written as `"\n"` |
| CharsetCandidates.AsciiDigits | src/main/java/com/example/transcoder/util/CharsetTester.java:43-51 | the digit string is made only of ASCII digits, no longer than the name, and equals the name when the name is all digits; a one-character name gives itself when it is a digit and nothing otherwise |
| CharsetCandidates.AsciiDigitsKeepsEveryDigit | src/main/java/com/example/transcoder/util/CharsetTester.java:43-51 | every ASCII digit occurs in the digit string exactly as often as in the name |
| CharsetCandidates.AsciiDigitsAppend | src/main/java/com/example/transcoder/util/CharsetTester.java:43-51 | the digits of a concatenation are the digits of the first part followed by those of the second, so the digits keep the name's order |
| CharsetCandidates.RawCandidatesShape | src/main/java/com/example/transcoder/util/CharsetTester.java:44-54 | before dedupe, the list starts with the original, ends with Cp037 and Cp1047, and every other entry is one of the prefixes `Cp`, `cp`, `IBM`, `ibm-`, `ibm`, `EBCDIC-` followed by the name's digits |
| CharsetCandidates.Dedupe | src/main/java/com/example/transcoder/util/CharsetTester.java:55-57 | the dedupe loop keeps no duplicates, keeps exactly the elements of the input, keeps the first element first, and orders elements by first occurrence |
| CharsetCandidates.BuildCandidates | src/main/java/com/example/transcoder/util/CharsetTester.java:41-58 | the original name comes first; there are no duplicates and at most 9 entries; every entry is the original, Cp037, Cp1047 or a derived spelling; Cp037 and Cp1047 are always present; the order is first occurrence in the candidate list |

## Findings

| source | as written | input that shows it | evidently intended | confidence | as-written member | corrected member |
|---|---|---|---|---|---|---|
| src/main/java/com/example/transcoder/ChunkedMappedInputStream.java:72-88 | `read(b, off, 0)` returns -1 because the loop never runs and `totalRead` stays 0 | a 3-byte file opened with chunk size 4, then `read(b, 0, 0)`: 3 bytes are left, yet the result is -1 | return 0 for a zero-length request, as `java.io.InputStream.read(byte[], int, int)` specifies; -1 only at end of stream | medium (a caller that asks for 0 bytes would see a false end of stream); not executed | ChunkedInput.ZeroLengthReadWitness, ChunkedInput.ZeroLengthReadReportsEnd | ChunkedInput.ReadBulkPerContract |

`ChunkedInput.ReadBulk` is the as-written operation. `ChunkedInput.Drive` uses
the corrected `ReadBulkPerContract`, and `ChunkedInput.DriveAsWritten` uses
`ReadBulk`. `PerContractAgreesOnNonEmpty` shows that the two bulk reads differ
only on zero-length requests. `AsWrittenRunAgrees` shows that the two runs differ
only in the end-of-stream flag, which the run as written also raises at every
zero-length request.

## Left out

- Releasing a mapping is an event in the history. The bodies of
  `UnmapUtil.unmap` and of the input stream's private `unmap` are reflection over
  JVM internals, so they are left out. So are their diagnostics. The modelled
  facts are only that releasing null does nothing and that release never fails.
- `FileChannel.open`, `size`, `map`, `truncate`, `close` and `MappedByteBuffer.force` are
  operating-system I/O. The file is a byte sequence, and `force` (durability) has
  no counterpart. `IOException` paths and the JVM's 2 GiB-per-mapping limit are
  not modelled, and neither are Java's 32-bit `int` and 64-bit `long`
  arithmetic: offsets and lengths are unbounded.
- The `synchronized` modifiers of the output stream are left out. Calls are
  modelled as sequential and single-threaded.
- Use of either stream after `close` is not modelled. Both `Close` functions
  require an open stream.
- ChunkedInput.Close: requires the history invariant `Recorded` as well. The
  source needs no such precondition, but `OneLiveMappingPerRun` proves that
  every stream reachable from the constructor satisfies it.
- ChunkedOutput.Close: the same applies, proved by `OneLiveMappingPerWrite`.
- ChunkedInput.Open: requires a positive `chunkSize` when the file is not empty.
  An empty file is accepted with any chunk size, because the constructor then
  maps nothing and every read reports end of stream. On a non-empty file with
  chunk size 0, the source maps empty windows and `read()` never returns. With a
  negative size, `map` throws. `TranscoderMain` passes the parsed command-line
  value on without checking it. The write side accepts any chunk size because
  its windows are at least 1 byte.
- ChunkedInput.ReadBulk: takes `off` and `len` as naturals with
  `off + len <= |b|`. That is the caller contract of `java.io.InputStream`; the
  `IndexOutOfBoundsException` path and negative `len` are not modelled. The same
  holds for ChunkedInput.ReadLoop, ChunkedInput.ReadBulkPerContract,
  ChunkedInput.Drive and ChunkedInput.DriveAsWritten, whose calls must satisfy
  `Fits`.
- ChunkedInput.Drive: is the run with the corrected bulk read, so its
  end-of-stream clause does not hold for the source's zero-length reads. The
  source's own run is `DriveAsWritten`, and `AsWrittenRunAgrees` relates the two.
- ChunkedOutput.WriteBulk: takes `off` and `len` as naturals with
  `off + len <= |b|`, the caller contract of `java.io.OutputStream`. The
  `IndexOutOfBoundsException` path, which can fire after part of the data was
  stored, is not modelled. The same holds for ChunkedOutput.WriteLoop,
  ChunkedOutput.Apply and ChunkedOutput.WriteFile.
- ChunkedOutput.MapNext: requires `minSize > 0`. Every caller passes
  `max(1, chunkSize)`, 1, or a positive count of pending bytes.
- The bytes that map adds when it grows the output file are modelled as zeros.
  They never reach the final file, because every byte up to the final length is
  overwritten by a write.
- CsvRow.RowRoundTrip: holds only for rows with at least one field, and only when
  delimiter, quote and `'\n'` are pairwise distinct. `[]` and `[""]` are both
  written as `"\n"`, and equal separators make the output ambiguous. The writer
  itself has no such restriction.
- Java strings and `char`s are UTF-16 code units, but a Dafny `char` is a Unicode
  scalar value and can never be a surrogate. The model therefore treats fields,
  the delimiter and the quote as sequences of scalar values. A delimiter or quote
  that `TranscoderMain` takes with `charAt(0)` from an argument starting with a
  supplementary character is a lone high surrogate. The writer then quotes every
  field that holds that unit and writes it unpaired. This is not modelled. The
  same holds for CharsetCandidates.BuildCandidates: `buildCandidates` keeps the
  Java `String original` as it is and compares candidates with `equals`, and a
  name holding a lone surrogate has no Dafny `string` counterpart.
- `writeRow` writes to a `java.io.Writer`. The model returns the text the row
  appends. The writer's exceptions and the row counter and logging in
  `parseAndWrite` are left out.
- In `buildCandidates`, the `toLowerCase()` and `[^0-9a-z]` steps only matter
  through the ASCII digits they keep. Lower-casing never creates or removes an
  ASCII digit, so the model goes straight to the digits.
- `TranscoderMain`, `CommonsCsvParserStrategy`, `parseAndWrite`, the
  `CsvParserStrategy` interface, `TestDataGenerator`, `CharsetLister` and
  `CharsetTester.main` are left out. They are glue over external libraries,
  command-line handling, random test data, or charset enumeration and file I/O.
  Character decoding and encoding happen in the JVM's readers and writers, which
  are not part of this model.

# FastWARC and Resiliparse: stream parsing, proved

A Dafny model of the stream-parsing core of FastWARC and of a few self-contained algorithms of Resiliparse, with proofs of
what they promise. `dafny verify dfyconfig.toml` checks the whole project.

Every reader is modelled over a byte sequence with a buffer that is refilled by any positive amount, so each result holds
for every way of dividing the stream into buffers. Classes mirror the objects of the original and change their fields in
place; what their methods compute is stated by functions on values, and the laws are lemmas about those functions.

The layers build on each other:

- `ByteStrings`, `Wrappers`, `Numerals`: trimming, case folding, searching, and printed numbers.
- `Readers`, `Seeking`: the position-caching reader and the movable limit over it, and what every kind of reader delivers
  behind a seek.
- `HeaderScan`, `HeaderMaps`, `HeaderEdits`: what a header block means, the incremental parser with its copy-on-write
  entries, and the multimap operations. Folding is that of section 5.2 of RFC 9112. `LaidOutHeaders`: what texts in any
  layout parse to, told without the parser's own terms.
- `HeaderText`, `HeaderTextExact`, `EditedHeaders`, `HeaderCache`: when written headers parse back, and when the raw block
  may be written instead of the entries.
- `RecordHead`, `Records`: the head of a WARC record and the record as a state machine over a shared stream.
- `ArchiveFormat`, `Archives`, `FilteredArchives`, `InplaceWalks`: well-formed archives and the iterations over them, and over
  any stream in place. `RecordFields`, `FilteredReports`: what the reports say of types, lengths and filtered records.
- `ByteIdentity`: reading a record from bytes and writing it again.
- `ChecksumWriting`: writing with digests. `EarlyLengths`, `Rewriting`: copying an archive with edited headers, across all
  the layers above.
- `ChunkedFormat`, `ChunkedStreams`, `LaidOutChunks`: the chunked coding of section 7.1 of RFC 9112, as it is read and
  written, and bodies with any spelling of their lengths.
- `ZstdFrames`: streams of compressed frames over a decoder that stops at frame ends.
- `PyReader`: the read buffer over a Python stream.
- `TextSplits`: lines of a file read in parallel.
- `DomTree`, `DomTraversal`, `DomWalk`, `DomWalkOrder`, `VisibleText`: walking documents along their links, and white space.
- `TokenLists`: class attributes as ordered sets.
- `BulkIndex`: bulk requests with retries.

What the proofs turned up:

- A status line set before a seeded parse makes the cached raw block disagree with the map (`HeaderCache.EditedSeedIsStale`),
  and in strict mode so can a version line that ends in a bare LF (`ArchiveFormat.VersionSeedRescans`).
- A parse that fails inside a line leaves a map that is not dirty and writes text that is not in it
  (`HeaderCache.BrokenParseGoesStale`, `HeaderCache.RunAgreesIff`).
- Keys are trimmed before their colons are removed, so a key can be stored with white space at its end
  (`EditedHeaders.ColonThenBlank`).
- Parsing HTTP headers after part of the payload was read moves the end of the payload; after more than four bytes the next
  record is lost (`Archives.ParseLateThenNext`).
- An empty HTTP block is written as an extra line end, and a chunk size of zero writes no payload
  (`ByteIdentity.OutputIffReproducible`).
- In-place iteration lets an old content length through (`InplaceWalks.SilentRecord`, `InplaceWalks.InplaceReportsAllIff`) and
  ends at a frozen record; with digest verification, which freezes, it finds one record at most
  (`FilteredArchives.InplaceIterate`, `FilteredArchives.InplaceFindsOne`).
- A record of which part was read is written with the length of the whole (`Rewriting.PartIsGoodIff`).
- Writing a frozen record with checksums after reading part of it writes all of the payload but digests only the rest
  (`ChecksumWriting.DigestsCoverIff`).
- A bulk request that indexes a document and then raises makes it be yielded twice (`BulkIndex.LateRaiseYieldsTwice`).
- With a minimum chunk size of zero an empty write ends a chunked stream early (`ChunkedStreams.WrittenDecodes`).
- Two negative range sizes cut a file into no range at all, and the last byte of an unterminated file is dropped
  (`TextSplits.GenSplits`, `TextSplits.LinesKeepFile`).

## Model

| member | source | states |
|---|---|---|
| Readers.TrackedReader.FillBuf | fastwarc-rs/src/stream_io/bufread.rs:146-149 | The buffer shows text from the position on, in a piece of any size; it is empty exactly at the end of the data. |
| Readers.TrackedReader.Read | fastwarc-rs/src/stream_io/bufread.rs:119-124 | A read delivers the text it moves over; nothing only for length zero or at the end. |
| Readers.TrackedReader.Seek | fastwarc-rs/src/stream_io/bufread.rs:128-142 | Whether the cached position, the buffer or a real seek is used, result and position are those of a seek on a plain byte array, errors included; `Seeking` says what is then read. |
| Readers.LineEndInBuffer | fastwarc-rs/src/stream_io/bufread.rs:522-538 | The part of a line one buffer shows ends at its first LF, or the line goes on behind the buffer. |
| Readers.LimitedReader.FillBuf | fastwarc-rs/src/stream_io/bufread.rs:566-570 | The window never shows text behind its virtual end, and is empty exactly there. |
| Readers.LimitedReader.Consume | fastwarc-rs/src/stream_io/bufread.rs:573-577 | Consuming moves both positions by the same clamped amount and leaves the end of the window where it was. |
| Readers.LimitedReader.Read | fastwarc-rs/src/stream_io/bufread.rs:582-588 | As on the inner reader, up to the virtual end; window and stream position stay in step. |
| Readers.LimitedReader.Seek | fastwarc-rs/src/stream_io/bufread.rs:593-613 | Exactly when seeking succeeds, where it lands after clamping, and that the window stays anchored to the stream; `Seeking` says what is then read. |
| Readers.LimitedReader.ReadLine | fastwarc-rs/src/stream_io/bufread.rs:515-541 | The line read is the text up to the first LF, the length limit or the virtual end, for every buffering. |
| Readers.LimitedReader.ReadToEnd | fastwarc-rs/src/warc/record.rs:602-603 | Reads of any sizes together deliver exactly what is left of the window. |
| Readers.LimitedReader.Skip | fastwarc-rs/src/warc/record.rs:635-646 | Skips exactly as many bytes as asked for or left. |
| Seeking.SeekThenRead | fastwarc-rs/src/stream_io/bufread.rs:128-142 | Behind a seek from the start the text without its first bytes is read, from the end its last bytes, from the current place what lay ahead without what is passed over or with what is gone back over; in front of the start seeking fails, behind the end nothing is read. |
| Seeking.SeekInWindow | fastwarc-rs/src/stream_io/bufread.rs:593-613 | The same of the bytes of the window, where positions are counted from its start and its end. |
| Seeking.SeekThroughAdapter | fastwarc-py/fastwarc/src/stream_io/mod.rs:318-367 | The same of the data of the Python stream, whatever its buffer holds. |
| Seeking.PlainSeek | fastwarc-py/fastwarc/src/stream_io/mod.rs:318-367 | The same of the bare byte array that runs of the adapter are compared with. |
| Seeking.SeekAhead | fastwarc-rs/src/stream_io/chunked.rs:120-125 | A chunked stream sought ahead, from the start or from where it stands, gives the decoded data from there on; it cannot be sought from the end. |
| HeaderScan.ChunkEol | fastwarc-rs/src/warc/header.rs:453-459 | A terminator is found in a buffer exactly when it ends the unfinished line of the whole input. |
| HeaderScan.EndsBlockTest | fastwarc-rs/src/warc/header.rs:444-480 | The parser's end-of-block test means an empty line, also with the length 2 it uses in quirks mode for a split CRLF. |
| HeaderScan.ChunkInLine | fastwarc-rs/src/warc/header.rs:459-468 | A buffer without terminator extends the line, and only a limit below twice the block can stop it there. |
| HeaderScan.ChunkEndsLine | fastwarc-rs/src/warc/header.rs:469-485 | A terminator completes the line: the block ends at the goal or the next line begins. |
| HeaderScan.SplitCrlfEndsLine | fastwarc-rs/src/warc/header.rs:439-450 | A CRLF split over two buffers completes the line all the same, also when its CR is the last byte of the seed. |
| HeaderScan.ReadingEnds | fastwarc-rs/src/warc/header.rs:429-434 | At the end of the input the unfinished line still counts. |
| ByteStrings.SpacesAre | fastwarc-rs/src/warc/header.rs:161-165 | Exactly blank, tab, line feed, form feed and carriage return are trimmed. |
| ByteStrings.EqualWithoutCaseIff | fastwarc-rs/src/warc/header.rs:605-611 | Keys are equal without case exactly when at each place they have the same byte, or the same ASCII letter once capital and once small. |
| LaidOutHeaders.FieldLineAdds | fastwarc-rs/src/warc/header.rs:336-395 | A field line adds one field: key and value split at the first colon and trimmed on all sides. |
| LaidOutHeaders.FoldedLineJoins | fastwarc-rs/src/warc/header.rs:347-366 | A continuation line puts its trimmed text behind the value in front of it, behind one blank; with no field in front it makes a field with an empty key. |
| LaidOutHeaders.LineEndsBlock | fastwarc-rs/src/warc/header.rs:444-480 | A line ends the block if it is empty, in quirks mode if it is all white space. |
| LaidOutHeaders.LaidOutParses | fastwarc-rs/src/warc/header.rs:397-489 | However a block is laid out (white space around keys and values, any number of continuation lines, lines that are ignored), in both modes it parses to the fields that are meant, folded texts in their order, and is read to its end and no further. |
| LaidOutHeaders.StatusAndBlockParse | fastwarc-rs/src/warc/header.rs:336-489 | The same behind a status line, which is trimmed. |
| LaidOutHeaders.UnfoldedParsesAlike | fastwarc-rs/src/warc/header.rs:347-366 | A value broken at blanks over any number of lines parses as it does on one line. |
| LaidOutHeaders.ViaOneTwo | fastwarc-rs/src/warc/header.rs:347-366 | `Via: one` continued by ` two` is the field `Via` with the value `one two`, in both modes. |
| LaidOutHeaders.ParseLaidOut | fastwarc-rs/src/warc/header.rs:397-489 | The parser, through any buffers and with anything behind the block, gives the status line and the fields that are meant, and stops behind the empty line. |
| HeaderMaps.FieldAtResolves | fastwarc-rs/src/warc/header.rs:386-393 | The offsets stored for a field line stand for the trimmed texts in front of and behind its first colon. |
| HeaderMaps.ResolveGrown | fastwarc-rs/src/warc/header.rs:161-165 | Appending to the raw block changes nothing an entry stands for. |
| HeaderMaps.HeaderMap.SplitAndPushParsedLine | fastwarc-rs/src/warc/header.rs:336-395 | The offsets and owned values stored for a line are what the line means: status line, folded line, field, or nothing; `FieldLineAdds`, `FoldedLineJoins` and `IgnoredLineStays` say what that is. |
| HeaderMaps.HeaderMap.ReadSplitCrlf | fastwarc-rs/src/warc/header.rs:438-450 | The unchecked push of a split LF, and the position from which the buffer is read on. |
| HeaderMaps.HeaderMap.ReadChunk | fastwarc-rs/src/warc/header.rs:452-486 | The lines of one buffer are read without losing the place of the parser; no more than the limit is kept. |
| HeaderMaps.HeaderMap.ReadBuffer | fastwarc-rs/src/warc/header.rs:427-488 | One round of the parser: progress, end of block at the reference position, or the limit. |
| HeaderMaps.HeaderMap.ParseWithOpts | fastwarc-rs/src/warc/header.rs:397-489 | For every buffering, map, raw block, count and position are those of cutting the whole input at line ends. Only a limit below seed and twice the block makes it fail; then the map holds the complete lines so far, the raw block all text so far. A limit clearly below the raw block does make it fail. |
| HeaderMaps.HeaderMap.Seed | fastwarc-rs/src/warc/record.rs:727-731 | The version line becomes the whole content, its trimmed text the status line. |
| HeaderMaps.HeaderMap.SetBytes | fastwarc-rs/src/warc/header.rs:685-708 | The loop that keeps, replaces and drops entries computes the edited list. |
| HeaderMaps.HeaderMap.RemoveBytes | fastwarc-rs/src/warc/header.rs:761-771 | The filtered list, and the dirty flag raised exactly when something was removed. |
| HeaderMaps.HeaderMap.AppendBytes | fastwarc-rs/src/warc/header.rs:738-744 | The sanitised field comes last and the raw block is no longer current. |
| HeaderMaps.HeaderMap.SetStatusLineBytes | fastwarc-rs/src/warc/header.rs:519-525 | The sanitised status line, and the dirty flag. |
| HeaderMaps.HeaderMap.GetBytes | fastwarc-rs/src/warc/header.rs:605-611 | The first value of a key, compared without case. |
| HeaderMaps.HeaderMap.Write | fastwarc-rs/src/warc/header.rs:850-883 | The raw block while it is current, otherwise the written form of the content; the count is the number of bytes written. |
| HeaderMaps.HeaderMap.Equals | fastwarc-rs/src/warc/header.rs:886-897 | Two maps are equal exactly when their encodings and contents are, however the entries are stored. |
| HeaderEdits.LowerSanitize | fastwarc-rs/src/warc/header.rs:688-694 | The key searched for by set is the lower-case form of the key it stores. |
| HeaderEdits.SetThenGet | fastwarc-rs/src/warc/header.rs:685-708 | After set the key has exactly the one value and no other key is touched. |
| HeaderEdits.SetInPlace | fastwarc-rs/src/warc/header.rs:693-707 | Set changes the first field with the key where it stands, drops the later ones and keeps the order of the rest. |
| HeaderEdits.AppendThenGet | fastwarc-rs/src/warc/header.rs:738-744 | After append the value is the last one of its key, and no other key is touched. |
| HeaderEdits.RemoveThenGet | fastwarc-rs/src/warc/header.rs:761-771 | After remove the key has no value, no other key is touched, and as many fields are gone as the key had values. |
| HeaderEdits.GetFirstIsHead | fastwarc-rs/src/warc/header.rs:605-627 | The single getter returns the head of what the multiple getter returns. |
| HeaderText.WritableSurvives | fastwarc-rs/src/warc/header.rs:850-897 | In both modes, parsing what a dirty map writes gives an equal map and reads exactly what was written, if its fields are safe in that mode. |
| LaidOutHeaders.WrittenPlainly | fastwarc-rs/src/warc/header.rs:850-883 | A written block is the layout with one line a field, a single blank behind the colon and no white space else. |
| LaidOutHeaders.HeaderBlockIsWritten | fastwarc-rs/src/warc/header.rs:850-883 | The written form of a status line and one field, byte by byte. |
| HeaderTextExact.SurvivesIffWritable | fastwarc-rs/src/warc/header.rs:850-897 | In both modes writing and parsing gives the same content exactly for the empty block and for those with a status line and fields that are safe in that mode. |
| HeaderTextExact.ScanPlain | fastwarc-rs/src/warc/header.rs:336-395 | Nothing that is parsed has the terminator of the parser's mode inside: no key, no value, also no folded one, and no status line. |
| EditedHeaders.CleanableIff | fastwarc-rs/src/warc/header.rs:169-178 | Sanitising gives a key that is neither empty nor untrimmed exactly when the first and the last byte of the trimmed key that are neither colon nor CR exist and are no white space. |
| EditedHeaders.ScrubByByte | fastwarc-rs/src/warc/header.rs:169-178 | Sanitising treats each byte alike wherever it stands: CR goes, LF becomes a blank, colons go from keys. |
| EditedHeaders.ColonsStayInValues | fastwarc-rs/src/warc/header.rs:519-771 | Keys and status lines that are stored have no colon, and no line break; values keep colons, and without line breaks they are only trimmed. |
| EditedHeaders.EditedFieldIsSafeIff | fastwarc-rs/src/warc/header.rs:169-178 | In both modes and whatever the value, a field stored by set or append survives writing exactly when the key passed in meets that condition. |
| EditedHeaders.EditKeepsWritableIff | fastwarc-rs/src/warc/header.rs:519-771 | One edit of a writable map leaves a writable map exactly when the key or status line passed in meets it. |
| EditedHeaders.ColonThenBlank | fastwarc-rs/src/warc/header.rs:169-178 | The key `: a` is stored with a leading blank, since sanitising trims before it removes colons. |
| EditedHeaders.EditedMapSurvives | fastwarc-rs/src/warc/header.rs:519-771 | After any run of such edits the written map parses back to itself in either mode and is read to its end. |
| HeaderCache.ScanTransfer | fastwarc-rs/src/warc/header.rs:427-488 | A block means the same wherever its text stands. |
| HeaderCache.FreshParseAgrees | fastwarc-rs/src/warc/header.rs:406-489 | After a parse into a fresh or used map, reparsing the raw block gives the map. |
| HeaderCache.SeededParseAgrees | fastwarc-rs/src/warc/header.rs:404-424 | The same behind a seed that rescans. |
| HeaderCache.SeedIsSafeIffRescans | fastwarc-rs/src/warc/header.rs:404-424 | Parsing behind a seed is safe for every input exactly when the seed alone rescans to the map's content, reaches no empty line, and ends in the terminator of the mode. |
| HeaderCache.EditedSeedIsStale | fastwarc-rs/src/warc/header.rs:406-424 | A status line edited before a seeded parse makes the cached block disagree with the map. |
| HeaderCache.BrokenAgreesIff | fastwarc-rs/src/warc/header.rs:412-486 | What a failed parse leaves reparses to the map exactly when the unfinished line is empty, or is no status line, folds nothing and has no colon. |
| HeaderCache.BrokenParseGoesStale | fastwarc-rs/src/warc/header.rs:459-468 | A parse of `A:b` that fails behind `A:` leaves a map without fields that writes `A:`, and reparsing that gives a field. |
| HeaderCache.RunAgreesIff | fastwarc-rs/src/warc/header.rs:406-883 | In every state a run of parses (failed ones too, none behind a seed that does not rescan), edits and clears reaches, a map that is not dirty equals the reparse of its raw block, except exactly when the last operation to change it was a parse that failed inside a line that counts. |
| ArchiveFormat.VersionSeedRescans | fastwarc-rs/src/warc/record.rs:727-731 | A version line is a harmless seed exactly when it ends in the terminator of the parser's mode. |
| Numerals.PrintRoundTrip | fastwarc-rs/src/stream_io/chunked.rs:312-312 | Printed hexadecimal and decimal lengths parse back, and survive trimming with their line end. |
| Numerals.DigitsPrinted | fastwarc-rs/src/stream_io/chunked.rs:312-312 | The digits that are printed are 0 to 9 and a to f, and ten, sixteen and 255 are written `10`, `10` and `ff`. |
| Numerals.PrintStarts | fastwarc-rs/src/stream_io/chunked.rs:312-312 | No number but zero is printed with a zero in front. |
| Numerals.DigitsIgnoreCase | fastwarc-rs/src/stream_io/chunked.rs:187-189 | The value of a digit string is the same in upper and lower case. |
| Numerals.ParseIff | fastwarc-rs/src/stream_io/chunked.rs:187-189 | A text parses to a number exactly when the number is in range and the text is it as printed, in any mixture of cases, with any zeros in front and perhaps a plus sign; from anything else nothing is parsed. |
| RecordFields.LengthOfIff | fastwarc-rs/src/warc/record.rs:759-761 | A content length is read from the decimal spellings of the number; what spells none counts as zero. |
| RecordHead.LeftoverLengthShows | fastwarc-rs/src/warc/record.rs:751-768 | A content length left over from the record before shows through exactly when the scan of three fields reaches no Content-Length. |
| RecordFields.TypeOfIff | fastwarc-rs/src/warc/record.rs:135-150 | A record type is read from its name as it is printed, in any mixture of cases, and from nothing else. |
| RecordFields.UnknownIff | fastwarc-rs/src/warc/record.rs:135-150 | What is no such name is unknown, and nothing else is. |
| RecordFields.IsHttpTypeIff | fastwarc-rs/src/warc/record.rs:757-757 | HTTP is the media type `application/http`, alone or with anything behind a semicolon, and nothing else. |
| RecordFields.VersionLines | fastwarc-rs/src/warc/record.rs:721-726 | `WARC/1.0`, `WARC/1.1` and the versions of old crawls are version lines. |
| RecordFields.NoVersionLines | fastwarc-rs/src/warc/record.rs:721-726 | Another major version, lower case, or one character too many is none. |
| RecordFields.LongLineIsCut | fastwarc-rs/src/warc/record.rs:703-745 | Of a first line without an end 256 bytes are looked at, and what follows counts as the next line. |
| RecordFields.ReachedIsPrefix | fastwarc-rs/src/warc/record.rs:751-766 | The fields that are reached are the first ones up to the third that is acted on, or all. |
| RecordFields.LastFieldsCount | fastwarc-rs/src/warc/record.rs:751-766 | Of the fields that are reached the last WARC-Type, Content-Type and Content-Length count, by exactly these names; what is not given stays as it was. |
| RecordFields.LaidOutIsGoodIff | fastwarc-rs/src/warc/record.rs:694-770 | A record with any layout of its headers is well-formed exactly when its version line is one and the length among the fields that are meant is that of its payload. |
| Records.WarcRecord.FindVersionLine | fastwarc-rs/src/warc/record.rs:703-745 | Empty lines, in quirks mode any line, are skipped; the position noted is the start of the version line. |
| Records.WarcRecord.ReadFields | fastwarc-rs/src/warc/record.rs:751-766 | Type, HTTP flag and length are those of the scan that stops after three hits; `RecordFields` says which fields those are and what they mean. |
| Records.WarcRecord.ParseWarcHeaders | fastwarc-rs/src/warc/record.rs:694-770 | The head parsed is the one found in the text, the reader stands at the payload and is limited to it; what each error means. |
| Records.WarcRecord.ConsumeN | fastwarc-rs/src/warc/record.rs:631-650 | Consumes as much as asked for or left, fails only without a reader, and keeps the end of the payload in place. |
| Records.UseReader | fastwarc-rs/src/stream_io/bufread.rs:515-613 | What each way of using a limited reader delivers, how much at most, that reads and peeks come up empty only at the end, where it leaves the reader, when a seek fails, and that none moves its window. |
| Records.WarcRecord.UsePayload | fastwarc-rs/src/stream_io/bufread.rs:515-613 | No use of the payload moves its end. |
| Records.WarcRecord.Freeze | fastwarc-rs/src/warc/record.rs:594-607 | The payload in memory is the rest of the window, the shared stream is left at its end, and the length is that of the copy. |
| Records.WarcRecord.ParseHttp | fastwarc-rs/src/warc/record.rs:973-1022 | The HTTP map is the parse of the payload text; the re-based limit keeps the end of the payload in place exactly when nothing had been read before, and otherwise moves it on by as much as had been read. |
| Records.WarcRecord.AnchoredLength | fastwarc-rs/src/warc/record.rs:1002-1004 | On an anchored record the subtraction of the HTTP block from the content length cannot underflow. |
| Records.WarcRecord.EnsureContentLength | fastwarc-rs/src/warc/record.rs:1227-1232 | Content-Length is set unless it already has the printed form of the length. |
| Records.WarcRecord.CopyPayload | fastwarc-rs/src/warc/record.rs:1244-1253 | The payload is copied completely, in blocks of any positive size. |
| Records.WarcRecord.Write | fastwarc-rs/src/warc/record.rs:1168-1260 | The output is header block, HTTP block, payload and record end, in this order, and the count returned is its length. |
| Records.WarcRecord.AnnouncesCopyIff | fastwarc-rs/src/warc/record.rs:1180-1253 | The content length that is announced is that of the payload that is copied exactly when there is none, or nothing of it was read before and the chunk size is positive. |
| Records.WarcRecord.NextInplace | fastwarc-rs/src/warc/record.rs:1389-1413 | In every state: the head found behind the payload, with the old content length shining through; records without stream and frozen ones end the iteration. |
| Records.WarcRecord.DetachReader | fastwarc-rs/src/warc/record.rs:512-562 | Which stream is handed back, and what the record keeps. |
| Records.FromReader | fastwarc-rs/src/warc/record.rs:413-425 | The record is the one whose head stands at the position of the stream, or the matching failure. |
| Records.NextRecord | fastwarc-rs/src/warc/record.rs:1363-1372 | In every state, whatever was done with the record, the next head is the one found where the stream stands behind its payload; without a stream there is none. |
| ArchiveFormat.RecordFound | fastwarc-rs/src/warc/record.rs:694-770 | Where a well-formed record starts, its own head is found, and the header limit does not interfere. |
| ArchiveFormat.ArchiveHead | fastwarc-rs/src/warc/record.rs:703-768 | The first head of an archive is that of its first record, its payload stands behind it, and the rest of the archive follows. |
| ArchiveFormat.ArchiveNext | fastwarc-rs/src/warc/record.rs:703-768 | From the end of a payload the next head is that of the next record. |
| ArchiveFormat.HttpBlockAt | fastwarc-rs/src/warc/record.rs:983-985 | The HTTP block of a payload is found wherever the payload stands. |
| Archives.TakeStep | fastwarc-rs/src/warc/record.rs:594-1022 | Reading, seeking, skipping, freezing and one HTTP parse at the start keep the record anchored. |
| Archives.Iterate | fastwarc-rs/src/warc/record.rs:1363-1372 | Iterating a well-formed archive reports exactly its records, in order and at their start offsets, whatever is done with each record before moving on. |
| Archives.ReportedAt | fastwarc-rs/src/warc/record.rs:694-770 | Each record is reported at the offset where its text begins, with its own fields and header block. |
| RecordFields.TypeIsReported | fastwarc-rs/src/warc/record.rs:754-754 | An iteration reports a type exactly for the records whose last WARC-Type reached is a spelling of its name, and none for those without. |
| RecordFields.HttpIsReported | fastwarc-rs/src/warc/record.rs:757-757 | It reports HTTP exactly when the last Content-Type reached says so. |
| RecordFields.TypedRecordIsRead | fastwarc-rs/src/warc/record.rs:694-770 | A written record, its type under any spelling of its name, is well-formed and read with that type, its media type and its length. |
| RecordFields.ReadTyped | fastwarc-rs/src/warc/record.rs:694-770 | Iterating over any archive of such records reports, for each, the type that was written, whether it is HTTP, and the length of the payload. |
| Archives.ReadPayloads | fastwarc-rs/src/warc/record.rs:1363-1372 | Reading every record to its end yields exactly the payloads of the archive. |
| Archives.FreshPayload | fastwarc-rs/src/warc/record.rs:768-769 | What a record has to offer before it is used is its payload. |
| ArchiveFormat.LateNext | fastwarc-rs/src/warc/record.rs:703-768 | A search for the next record that starts inside the record end still finds it. |
| ArchiveFormat.LateNextIsLost | fastwarc-rs/src/warc/record.rs:703-745 | A search that starts inside the version line takes the record for garbage in strict mode; in quirks mode it skips the line and goes on inside the header block. |
| Archives.ParseLate | fastwarc-rs/src/warc/record.rs:973-1022 | Parsing the HTTP headers behind `n` bytes of the payload moves the end of the payload by `n` bytes. |
| Archives.ParseLateThenNext | fastwarc-rs/src/warc/record.rs:973-1372 | After that, up to four bytes are made up for by the record end. With more, in both modes, nothing in front of that many bytes behind the payload is found, so the next record is lost; inside its version line strict mode fails, and quirks mode finds nothing in front of the header block. |
| Archives.IterateInplace | fastwarc-rs/src/warc/record.rs:1389-1413 | Iterating in place reports what iterating with fresh records reports, for every plan, if every record but the first announces its length within the scan and none is frozen. |
| InplaceWalks.IterateAnyInplace | fastwarc-rs/src/warc/record.rs:1389-1413 | Iterating any stream in place, well-formed or not, reports the heads that follow each other at their content lengths, each with the length of the one before it unless it announces its own, as long as no header limit is met. |
| InplaceWalks.WideLimitFits | fastwarc-rs/src/warc/header.rs:459-468 | A header limit of twice the stream is never met. |
| InplaceWalks.InplaceAgreesIff | fastwarc-rs/src/warc/record.rs:751-768 | On any stream that is what fresh records find exactly when each record behind a content length other than zero announces its own. |
| InplaceWalks.InplaceReportsAllIff | fastwarc-rs/src/warc/record.rs:1363-1413 | On a well-formed archive exactly when each record behind a payload that is not empty announces its length where the scan reaches it. |
| InplaceWalks.SilentRecord | fastwarc-rs/src/warc/record.rs:751-768 | An empty record without Content-Length behind a byte of payload is reported differently. |
| Archives.LeftoverHidden | fastwarc-rs/src/warc/record.rs:1402-1408 | On such archives the length left over from the record before makes no difference. |
| FilteredArchives.VerifyBlockDigest | fastwarc-rs/src/warc/record.rs:1272-1359 | Verification freezes the record exactly when the digest can be read, succeeds exactly when it compares equal, and leaves the payload unread and its end in place. |
| FilteredArchives.HttpBlockOf | fastwarc-rs/src/warc/record.rs:983-985 | The HTTP block that a parse takes off is the one the unread payload begins with. |
| FilteredArchives.ParseHttpOf | fastwarc-rs/src/warc/iter.rs:354-363 | HTTP parsing of an unused record takes the length of its HTTP block off the content length, and does not fail when twice the block fits the limit. |
| FilteredArchives.Prepare | fastwarc-rs/src/warc/iter.rs:350-365 | What the filter and the caller then see: position, fields with the content length of what is left behind the HTTP block, header block, and HTTP block. |
| FilteredArchives.NextVerified | fastwarc-rs/src/warc/iter.rs:326-372 | The loop returns the first record that passes verification, as it stands behind its HTTP block, and leaves the iterator anchored in the archive. |
| FilteredArchives.NextFiltered | fastwarc-rs/src/warc/iter.rs:413-427 | The loop returns the first record that passes verification and then the filter, which sees it as it stands behind its HTTP block. |
| FilteredArchives.FilteredIterate | fastwarc-rs/src/warc/iter.rs:326-427 | Exactly the records that pass verification and the filter are returned, in order, also when verification froze those in between and whatever is done with the returned ones. |
| FilteredReports.FoundIff | fastwarc-rs/src/warc/iter.rs:326-427 | A record is found exactly when, if that is asked for, its digest matches, and the filter accepts it as it stands: at its offset and, if HTTP is parsed and the record is HTTP, without its HTTP block. |
| FilteredReports.FoundInOrder | fastwarc-rs/src/warc/iter.rs:326-427 | The records found stand in the order of the archive, none twice. |
| FilteredArchives.InplaceIterate | fastwarc-rs/src/warc/iter.rs:336-427 | Iterating in place with verification and a filter, whatever is done with the records returned, returns what passes up to the first record that is frozen, by comparing its digest or by the caller, which ends the iteration. |
| FilteredArchives.InplaceFindsAllIff | fastwarc-rs/src/warc/iter.rs:336-427 | That is what iterating with fresh records returns exactly when none of it stands behind a frozen record. |
| FilteredArchives.InplaceFindsOne | fastwarc-rs/src/warc/iter.rs:336-372 | With verification it is one record at most. |
| ByteIdentity.FromBytes | fastwarc-rs/src/warc/record.rs:433-441 | The record is the first one in the bytes, frozen, with its payload, also a truncated one, in memory. |
| ByteIdentity.SingleRecord | fastwarc-rs/src/warc/record.rs:433-441 | The bytes of one well-formed record are read as that record. |
| ByteIdentity.OutputIffReproducible | fastwarc-rs/src/warc/record.rs:1168-1260 | Whatever the mode of HTTP parsing, what is written equals the input exactly when no empty HTTP block was parsed off and the chunk size does not hold payload back. |
| ByteIdentity.EmptyHttpDiffers | fastwarc-rs/src/warc/record.rs:1175-1183 | An empty HTTP block is written as a line end of its own, which makes the output differ. |
| ByteIdentity.HttpBlockOutput | fastwarc-rs/src/warc/header.rs:850-883 | An HTTP block parsed in either mode writes just the text it was parsed from, unless that is empty. |
| ByteIdentity.Reproduce | fastwarc-rs/src/warc/record.rs:1168-1260 | Reading a well-formed record with canonical Content-Length from bytes, possibly parsing its HTTP block in either mode, and writing it gives the input back exactly under that condition; parsing fails only under a limit below twice the HTTP block. |
| ChecksumWriting.DigestsAreSet | fastwarc-rs/src/warc/record.rs:1214-1221 | After that each digest is there once, a payload digest that was not set is as before, and no other field is touched. |
| ChecksumWriting.BlockDigestShows | fastwarc-rs/src/warc/record.rs:1192-1221 | The header that is written names, under WARC-Block-Digest, the hash of HTTP block and payload in this order. |
| ChecksumWriting.PayloadDigestShows | fastwarc-rs/src/warc/record.rs:1192-1221 | Under WARC-Payload-Digest it names the hash of the payload alone if an HTTP block was parsed, and what it named before if not. |
| ChecksumWriting.AddDigests | fastwarc-rs/src/warc/record.rs:1185-1223 | The record is frozen and gets the digests of what is left of its payload, the payload digest only with a parsed HTTP block; the reader then stands at the start of the payload. |
| ChecksumWriting.WriteChecksummed | fastwarc-rs/src/warc/record.rs:1168-1260 | Headers with digests and a length taken before freezing, HTTP block, payload from its start, and record end are written and counted. |
| ChecksumWriting.DigestsCoverIff | fastwarc-rs/src/warc/record.rs:1185-1257 | The digests are those of what is written exactly when, with a chunk size of zero, nothing was left, and otherwise no part of a frozen payload, one that is not empty, had been read before. |
| Rewriting.PlainRecordIsGood | fastwarc-rs/src/warc/record.rs:694-770 | Every payload can be put into a well-formed record. |
| Rewriting.OneByteRecord | fastwarc-rs/src/warc/record.rs:1168-1260 | The smallest record with one byte of payload, byte by byte. |
| Rewriting.LengthOfOnly | fastwarc-rs/src/warc/record.rs:751-768 | A single Content-Length that the scan of three fields reaches is the length that is acted on. |
| EarlyLengths.EarlyIsTaken | fastwarc-rs/src/warc/record.rs:751-768 | A single Content-Length in its usual spelling with fewer than three fields the scan counts in front of it is the one that is acted on. |
| EarlyLengths.EarlyAfter | fastwarc-rs/src/warc/header.rs:685-771 | No edit of other fields, and none that sets the length, changes that. |
| Rewriting.EarlyLengthIsRewritable | fastwarc-rs/src/warc/record.rs:1168-1260 | A record of safe fields with such a length may be rewritten after any edits of fields that keep it. |
| Rewriting.WrittenRecordIsGoodIff | fastwarc-rs/src/warc/header.rs:850-883 | A version line and written fields make a well-formed record with these fields exactly when the line is one, the fields are safe, and their length is that of the payload. |
| Rewriting.RewrittenIsGoodIff | fastwarc-rs/src/warc/record.rs:1168-1260 | After any edits of status line and fields, what is written is a well-formed record with the edited fields exactly when nothing changed, or the same holds of the edited head. |
| Rewriting.RewrittenText | fastwarc-rs/src/warc/record.rs:1225-1257 | After any such edits the record writes the text of the rewritten record: unchanged bytes if nothing was edited. |
| Rewriting.EditRecord | fastwarc-rs/src/warc/header.rs:685-771 | Editing its headers leaves payload, HTTP block and position of a record alone. |
| Rewriting.RewriteRecord | fastwarc-rs/src/warc/record.rs:1168-1260 | The same for a record of which any part was read before, which is then missing. |
| Rewriting.PartIsGoodIff | fastwarc-rs/src/warc/record.rs:1180-1253 | What is then written is well-formed exactly when there is no payload, or nothing of it was read and the chunk size is positive. |
| Rewriting.CopyArchive | fastwarc-rs/src/warc/record.rs:1168-1372 | Iterating over an archive, editing and writing every record gives the texts of the rewritten records, for any edits of status lines and fields. |
| Rewriting.CopyIsGood | fastwarc-rs/src/warc/record.rs:1168-1260 | If every record may be rewritten, they are a well-formed archive with the same payloads. |
| Rewriting.CopyThenRead | fastwarc-rs/src/warc/record.rs:1168-1372 | Reading the copy yields the payloads of the original. |
| ChunkedFormat.DecodeChunkSplits | fastwarc-rs/src/stream_io/chunked.rs:198-217 | A chunk may be delivered in any pieces. |
| ChunkedFormat.DecodeEncoded | fastwarc-rs/src/stream_io/chunked.rs:310-320 | An encoded chunk decodes to its data; the empty one ends the stream. |
| ChunkedFormat.DecodeAll | fastwarc-rs/src/stream_io/chunked.rs:171-220 | Encoded chunks and a terminator decode to the data in front of the first empty chunk. |
| LaidOutChunks.DecodeSpelled | fastwarc-rs/src/stream_io/chunked.rs:187-197 | A chunk with any spelling of its length, capital digits, leading zeros and a plus sign included, and white space around it decodes to its data; the empty one ends the body. |
| LaidOutChunks.DecodeBody | fastwarc-rs/src/stream_io/chunked.rs:175-215 | A whole body of such chunks decodes to all their data, and ends behind the empty one. |
| LaidOutChunks.BadHeadIff | fastwarc-rs/src/stream_io/chunked.rs:187-189 | A header is an error exactly when it spells no number in range. |
| LaidOutChunks.CapitalBody | fastwarc-rs/src/stream_io/chunked.rs:187-187 | The body with the header `A`, ten bytes, and a final chunk is one of those, and its data are the ten bytes. |
| LaidOutChunks.TenIsWritten | fastwarc-rs/src/stream_io/chunked.rs:310-320 | A written chunk of ten bytes has the header `a`, byte by byte. |
| ChunkedStreams.ReadLine | fastwarc-rs/src/stream_io/chunked.rs:180-184 | A chunk header is read up to its LF or the end of the data, for every buffering. |
| ChunkedStreams.ChunkedReader.ConsumeChunkEnd | fastwarc-rs/src/stream_io/chunked.rs:158-168 | Two bytes are taken behind a chunk, whatever they are; too few are an error. |
| ChunkedStreams.ChunkedReader.NextChunk | fastwarc-rs/src/stream_io/chunked.rs:180-197 | The header opens a chunk, ends the stream, or is an error, just as decoding the text says; `ParseIff` and `BadHeadIff` say which headers spell a length. |
| ChunkedStreams.ChunkedReader.CopyPart | fastwarc-rs/src/stream_io/chunked.rs:198-217 | What is copied from the inner buffer is the next piece of the decoded data; a chunk cut short is an error. |
| ChunkedStreams.ChunkedReader.FillBuf | fastwarc-rs/src/stream_io/chunked.rs:171-220 | Refilling loses and repeats nothing; an empty buffer means the end of a chunked stream, an error is the one decoding gives, and the reader stays usable. |
| ChunkedStreams.ChunkedReader.Consume | fastwarc-rs/src/stream_io/chunked.rs:222-225 | The stream position and what is unread stay two parts of the same decoded whole. |
| ChunkedStreams.ChunkedReader.ReadToEnd | fastwarc-rs/src/stream_io/chunked.rs:101-106 | Reading to the first end yields the decoded data for every buffering; before an error a prefix of it is delivered. |
| LaidOutChunks.ReadLaidOut | fastwarc-rs/src/stream_io/chunked.rs:175-240 | Reading a body with any spelling of its lengths, through any buffers, gives its data and leaves what stands behind it. |
| ChunkedStreams.ChunkedReader.Seek | fastwarc-rs/src/stream_io/mod.rs:108-132 | Seeking goes forward only, lands at the target or the end of the stream, and reports what it cannot do. |
| ChunkedStreams.ChunkedWriter.WriteChunkBuffer | fastwarc-rs/src/stream_io/chunked.rs:310-320 | What is held back is written as one chunk. |
| ChunkedStreams.ChunkedWriter.Write | fastwarc-rs/src/stream_io/chunked.rs:339-346 | Data is held back until there is enough of it for a chunk. |
| ChunkedStreams.ChunkedWriter.Finish | fastwarc-rs/src/stream_io/chunked.rs:327-335 | What is held back and a terminator, thus two terminators when nothing is; nothing at all if the stream was never started. |
| ChunkedStreams.WriteAllKeepsData | fastwarc-rs/src/stream_io/chunked.rs:339-346 | No data is lost or reordered on the way into chunks. |
| ChunkedStreams.ChunksAreLongEnough | fastwarc-rs/src/stream_io/chunked.rs:339-346 | Every chunk has the minimum length, would not have it without the write that completed it, and what is held back is shorter. |
| ChunkedStreams.WrittenDecodes | fastwarc-rs/src/stream_io/chunked.rs:310-346 | What was written and finished decodes to all of it exactly when the minimum chunk size is positive or no data follows an empty write. |
| ChunkedStreams.RoundTrip | fastwarc-rs/src/stream_io/chunked.rs:171-346 | Writing, finishing and reading through any buffers to the first end gives the concatenated writes, under exactly that condition. |
| ZstdFrames.ZstdReader.ResetDecoder | fastwarc-rs/src/stream_io/zstd.rs:191-204 | A new decoder starts at the next frame and loses nothing. |
| ZstdFrames.ZstdReader.EnsureFrameData | fastwarc-rs/src/stream_io/zstd.rs:220-240 | Ended frames, empty ones included, are skipped while there is more input. |
| ZstdFrames.ZstdReader.FillBuf | fastwarc-rs/src/stream_io/zstd.rs:307-310 | The buffer is empty only when the compressed stream is used up; otherwise the frame start position is that of the frame that holds the next byte. |
| ZstdFrames.ZstdReader.ReadToEnd | fastwarc-rs/src/stream_io/zstd.rs:244-250 | Reading to the end yields the concatenated payloads of the frames. |
| ZstdFrames.ZstdReader.InnerSeek | fastwarc-rs/src/stream_io/zstd.rs:282-287 | Seeking to the start of a frame makes the payloads from that frame on come next. |
| PyReader.PyReaderAdapter.FillBuf | fastwarc-py/fastwarc/src/stream_io/mod.rs:381-411 | The buffer is the text at the position; it is empty only at the end of the data or without capacity. |
| PyReader.PyReaderAdapter.Read | fastwarc-py/fastwarc/src/stream_io/mod.rs:310-314 | A read delivers the text it moves over, and nothing only for length zero, at the end, or without capacity. |
| PyReader.PyReaderAdapter.SeekInBuffer | fastwarc-py/fastwarc/src/stream_io/mod.rs:336-344 | A target inside the buffer is reached without the inner stream, any other is left to it. |
| PyReader.PyReaderAdapter.Seek | fastwarc-py/fastwarc/src/stream_io/mod.rs:318-367 | Inside the buffer nothing is sought, and the result is that of a seek on the plain data, errors included. |
| PyReader.PyReaderAdapter.StreamPosition | fastwarc-py/fastwarc/src/stream_io/mod.rs:369-377 | The position reported is that of the unread data, not of the inner stream. |
| PyReader.Run | fastwarc-py/fastwarc/src/stream_io/mod.rs:308-418 | Over every run of reads, seeks, tells and peeks the adapter answers as a bare byte array does, and each peek takes at most what it asks for and what there is, and nothing only if there is nothing; without capacity it seeks and tells alike but delivers nothing. |
| TextSplits.GenSplits | resiliparse-py/resiliparse/beam/textio.py:126-140 | The ranges follow each other without gap or overlap exactly when the range size is positive or the file empty; all but the last are as long as the range size, and none is shorter than the minimum or takes in more than what would be, unless there is only one. |
| TextSplits.LinesSplit | resiliparse-py/resiliparse/beam/textio.py:195-202 | Reading on up to a later stop is reading up to an earlier one and then on from the first line behind it. |
| TextSplits.RangesJoin | resiliparse-py/resiliparse/beam/textio.py:187-202 | Neighbouring ranges yield together what one range over both yields. |
| TextSplits.ExactlyOnce | resiliparse-py/resiliparse/beam/textio.py:187-202 | However a file is cut into ranges, they yield the lines of the whole file: none lost, repeated or reordered. |
| TextSplits.ReadSplit | resiliparse-py/resiliparse/beam/textio.py:164-202 | A worker yields the lines that start in what is left of its range, also when the runner cuts it off on the way; neither a claim out of order nor an unexpected end of file occurs. |
| TextSplits.ReadByRanges | resiliparse-py/resiliparse/beam/textio.py:126-202 | Cutting a file and reading the ranges yields its lines exactly when the range size is positive or the file empty. |
| TextSplits.LinesKeepFile | resiliparse-py/resiliparse/beam/textio.py:199-199 | Lines and line feeds give the file back exactly when it ends with a line feed; otherwise its last byte is lost. |
| TextSplits.LinesHaveNoLf | resiliparse-py/resiliparse/beam/textio.py:194-202 | No line holds a line feed. |
| DomTree.TreeIsUnique | resiliparse-rs/src/parse/html/dom/iter.rs:43-70 | The links below a root stand for one tree only. |
| DomTree.TreeHasNoDup | resiliparse-rs/src/parse/html/dom/iter.rs:43-70 | A tree that child, sibling and parent links stand for has no node twice. |
| DomTraversal.NodeIterator.Next | resiliparse-rs/src/parse/html/dom/iter.rs:43-70 | Each step returns the head of the preorder that is left and leaves its tail. |
| DomTraversal.CollectNodes | resiliparse-rs/src/parse/html/dom/iter.rs:43-70 | Iterating from a root yields the preorder of its tree, every node once, whatever surrounds the root. |
| DomTree.OrderByLinks | resiliparse-rs/src/parse/html/dom/iter.rs:43-70 | In that order a node is followed by its first child, or, if it has none, by its next sibling. |
| DomWalk.NodeWalk | resiliparse-rs/src/parse/html/serialize.rs:50-79 | The walk along the links computes what the recursion over the tree computes, for any callbacks. |
| DomWalk.WalkOnSteps | resiliparse-rs/src/parse/html/serialize.rs:60-77 | One round of the loop is one step of that recursion. |
| DomWalk.BeginsAreVisits | resiliparse-rs/src/parse/html/serialize.rs:60-67 | The first callback is called for the nodes in document order, without what is below nodes not gone into, up to the first that halts. |
| DomWalk.FinishesAreCompleted | resiliparse-rs/src/parse/html/serialize.rs:68-76 | In every walk, halted or not, the second callback is called for the completed nodes without a next sibling, in order of completion. |
| DomWalk.VisitedUpToHalt | resiliparse-rs/src/parse/html/serialize.rs:50-79 | The nodes visited up to the halting one are those completed and those on the path to it, each counted once. |
| DomWalk.HaltPathLeadsToHalt | resiliparse-rs/src/parse/html/serialize.rs:60-67 | That path leads from child to child below the root, and exactly its last node halts. |
| DomWalk.FinishedIff | resiliparse-rs/src/parse/html/serialize.rs:68-76 | The second callback is called at most once for a node, and is called for it exactly when it was visited, does not lie on the path to the halting node, and has no next sibling. |
| DomWalk.WalkCalls | resiliparse-rs/src/parse/html/serialize.rs:50-79 | In every walk, halted or not: the first callback runs over the visits up to the first that halts, no callback is repeated, and the second is called exactly for the nodes visited that neither halt nor contain the halting node and have no next sibling. |
| DomWalkOrder.TreeFinishesBehind | resiliparse-rs/src/parse/html/serialize.rs:50-79 | In every walk, halted or not, the second callback is called for a node only behind the first one, and nothing below the node is called for behind that. |
| VisibleText.CollapseWhitespace | resiliparse-rs/src/parse/html/serialize.rs:190-201 | One pass that remembers the last character computes the squeezed text. |
| VisibleText.SqueezeCollapses | resiliparse-rs/src/parse/html/serialize.rs:190-201 | The only white space left is single blanks. |
| VisibleText.SqueezeKeepsVisible | resiliparse-rs/src/parse/html/serialize.rs:190-201 | Nothing but white space is lost and nothing changes its place. |
| VisibleText.SqueezeIsIdentityIff | resiliparse-rs/src/parse/html/serialize.rs:190-201 | Exactly the collapsed texts are left alone. |
| VisibleText.SqueezeTwice | resiliparse-rs/src/parse/html/serialize.rs:190-201 | Collapsing twice is collapsing once. |
| VisibleText.RunIsOneBlank | resiliparse-rs/src/parse/html/serialize.rs:190-201 | A run of blanks, tabs, line feeds, form feeds and carriage returns becomes one blank, or none behind a blank. |
| VisibleText.VisibleIsKept | resiliparse-rs/src/parse/html/serialize.rs:190-201 | Any other character is kept. |
| TokenLists.SplitOfJoin | resiliparse-rs/src/parse/html/dom/coll.rs:213-252 | Reading back what was joined gives the tokens of the parts. |
| TokenLists.JoinSurvivesIff | resiliparse-rs/src/parse/html/dom/coll.rs:213-261 | A joined list is read back as it was exactly when it consists of tokens. |
| TokenLists.RenamedReplaces | resiliparse-rs/src/parse/html/dom/coll.rs:265-282 | Renaming in the list and dropping duplicates is the replace operation on an ordered set. |
| TokenLists.TokenList.Values | resiliparse-rs/src/parse/html/dom/coll.rs:213-220 | The tokens of the attribute, each at its first place. |
| TokenLists.UniqueKeepsFirst | resiliparse-rs/src/parse/html/dom/coll.rs:213-220 | Of equal tokens the first is kept, and those kept stay in their order. |
| TokenLists.AddSurvives | resiliparse-rs/src/parse/html/dom/coll.rs:244-252 | Writing and reading back a list to which any strings were added gives the set with the tokens in them added. |
| TokenLists.WithoutIsSet | resiliparse-rs/src/parse/html/dom/coll.rs:254-263 | Removing tokens removes exactly those. |
| TokenLists.WithoutKeepsOrder | resiliparse-rs/src/parse/html/dom/coll.rs:254-263 | The others stay in their order. |
| TokenLists.ThreeTokens | resiliparse-rs/src/parse/html/dom/coll.rs:244-282 | Tokens are written with single blanks between them, and replacing the first by the last leaves one of both, in front. |
| TokenLists.AddExtends | resiliparse-rs/src/parse/html/dom/coll.rs:244-252 | Tokens that are added come behind those that are there, which stay where they are, and no others do. |
| TokenLists.ToggleSwitches | resiliparse-rs/src/parse/html/dom/coll.rs:284-302 | Toggling answers whether the token is in the set afterwards: as it is forced, else if it was not before; no other token is touched. |
| TokenLists.ToggleTwice | resiliparse-rs/src/parse/html/dom/coll.rs:284-302 | Toggling a token in and out again leaves the set as it was. |
| TokenLists.ReplacePuts | resiliparse-rs/src/parse/html/dom/coll.rs:265-282 | Replacing puts the new token, once, where the first of both stood, and the old one is gone. |
| TokenLists.ReplaceLeavesOthers | resiliparse-rs/src/parse/html/dom/coll.rs:265-282 | The other tokens stay as they are, in their order. |
| TokenLists.TokenList.Apply | resiliparse-rs/src/parse/html/dom/coll.rs:244-302 | Every edit, with any strings, adds, removes, replaces or toggles the tokens in them, and answers so; with tokens that is what section 7.1 of the DOM Standard describes. |
| TokenLists.TokenList.Run | resiliparse-rs/src/parse/html/dom/coll.rs:244-302 | A run of edits with any strings is a run of operations on an ordered set, and no token is listed twice. |
| BulkIndex.SortSorts | resiliparse-py/resiliparse/beam/elasticsearch.py:183-183 | The buffer is sent in the order of the document identifiers. |
| BulkIndex.SortKeepsAll | resiliparse-py/resiliparse/beam/elasticsearch.py:183-183 | Sorting loses and repeats no document. |
| BulkIndex.SortIsStable | resiliparse-py/resiliparse/beam/elasticsearch.py:183-183 | Documents with the same identifier stay in their order. |
| BulkIndex.RequestConserves | resiliparse-py/resiliparse/beam/elasticsearch.py:192-210 | The replies of one request sort every document into indexed, dropped or to be sent again. |
| BulkIndex.FlushConserves | resiliparse-py/resiliparse/beam/elasticsearch.py:184-225 | Every document is yielded, dropped or left as often as it was buffered; only what a request yields before it raises comes on top. |
| BulkIndex.FlushAttempts | resiliparse-py/resiliparse/beam/elasticsearch.py:184-225 | At most one attempt more than there are retries is made, and all of them before giving up; `FlushBuffer` makes one request for each. |
| BulkIndex.LogIsRun | resiliparse-py/resiliparse/beam/elasticsearch.py:184-225 | Each request is for what the one before left worth sending: everything if it raised, else exactly the documents refused with a status other than 400, or with 400 unless that is ignored; the flush ends when nothing is, or all retries are used. |
| BulkIndex.DroppedWasRefused | resiliparse-py/resiliparse/beam/elasticsearch.py:196-202 | A document is dropped only if a request of the flush answered it with status 400, and that is ignored. |
| BulkIndex.NothingIsDropped | resiliparse-py/resiliparse/beam/elasticsearch.py:196-202 | If no request answers any document with status 400, or that is not ignored, nothing is dropped. |
| BulkIndex.BusyIndexIsAskedAgain | resiliparse-py/resiliparse/beam/elasticsearch.py:184-225 | A document refused with status 429 and indexed at the second request is yielded, after two requests, also when status 400 is ignored. |
| BulkIndex.AccountedIff | resiliparse-py/resiliparse/beam/elasticsearch.py:184-225 | Every document is yielded, dropped or left exactly as often as it was buffered if and only if no request that is made indexes something and then raises. |
| BulkIndex.LateRaiseYieldsTwice | resiliparse-py/resiliparse/beam/elasticsearch.py:184-225 | One document is yielded twice when the first request indexes it and then raises, and the second indexes it. |
| BulkIndex.Indexer.TakeReplies | resiliparse-py/resiliparse/beam/elasticsearch.py:192-210 | One pass over the replies yields exactly the documents indexed and keeps exactly those refused for another reason than an ignored status 400, each in order, and counts what was refused. |
| BulkIndex.Indexer.Send | resiliparse-py/resiliparse/beam/elasticsearch.py:187-215 | One request leaves to be sent again what its replies say, or everything if it raises, whatever was yielded before. |
| BulkIndex.Indexer.FlushBuffer | resiliparse-py/resiliparse/beam/elasticsearch.py:177-227 | The requests made are those of a run as `LogIsRun` says, the documents they index are yielded in order, nothing is dropped but what one of them refused with an ignored status 400, and the flush ends as its last request does; the buffer is emptied. |

## Left out

- HeaderMaps.HeaderMap.ParseWithOpts: between a header limit just below the block and one of twice its length it depends on how the input is buffered whether the parse fails, because the check adds the length of the whole buffer and a split CRLF is not checked; what it leaves behind is stated either way.
- Records.WarcRecord.ParseHttp: the charset taken from the HTTP headers and the wrapping in decoding readers are not modelled.
- Records.WarcRecord.ParseWarcHeaders: the position noted is that of the stream; the frame start position that replaces it behind a decoder is not modelled.
- Records.WarcRecord.DetachReader: without the unwrapping of decoding readers.
- ChunkedStreams.ChunkedReader.ReadToEnd: before an error of the chunked reader the bytes delivered depend on the buffers; the contract says that they are a prefix of the decodable data.
- ZstdFrames.ZstdReader.EnsureFrameData: the Zstd reader is modelled with a dictionary supplied; probing for a dictionary frame, which is repeated while the stream position is zero, is not part of this model.
- ZstdFrames.ZstdReader.InnerSeek: only to starts of frames; anywhere else the decoder, which is not modelled, would be given the middle of a frame.
- Archives.Iterate: stated for header limits of at least twice each head; below that the iteration may end in an error, as `ParseWithOpts` describes.
- Archives.ParseLateThenNext: which record is found instead, if any, when a search goes on inside a header block; that depends on the fields it meets.
- FilteredArchives.FilteredIterate: the same limits, with HTTP blocks included when they are parsed; the filter is pure and sees position, fields, header block and HTTP block of a record, not its payload.
- FilteredArchives.InplaceIterate: archives whose records announce their lengths; when they do not is what `InplaceWalks` is about.
- Rewriting.CopyThenRead: archives whose records may be rewritten, which `RewrittenIsGoodIff` makes exact and `EarlyLengthIsRewritable` reduces to a condition on record and edits.
- Rewriting.CopyArchive: a positive chunk size; `RewriteRecord` says what any other writes.
- Gzip, LZ4, Zstd and Brotli algorithms, and the stream detection by magic bytes; frames and digests are abstract. Gzip and LZ4 member concatenation, whose buffer can be empty before the end of the data.
- Reader errors other than those the modelled code itself returns, and writer errors; the decoding of keys and values into text.
- set_bytes_payload in mid-iteration, record initialisation, dates and record identifiers.
- `ChunkedReader::inner_seek`, which leaves the chunk counters and the old output buffer in place.
- The element iterators and selectors of the DOM, and the callbacks that format visible text beyond white space collapsing; a document is a table of links, not memory shared with Lexbor.
- The compressed branch of the split reader, decoding of lines, and Beam itself beyond claims and cut-off ranges.
- Building bulk actions, waiting between requests, and the windows attached to yielded identifiers.
- Integers are unbounded except where a width decides a result: lengths parsed from text, limits, seek targets and stream sizes.

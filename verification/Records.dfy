/**
 The WARC record as a state machine over a shared stream
 (fastwarc-rs/src/warc/record.rs): its head is parsed, a limit is laid over the
 payload, and whatever is done with the payload, the next record is found at the
 right byte.
 */
module Records {
  import opened Wrappers
  import opened ByteStrings
  import opened Readers
  import opened HeaderScan
  import opened HeaderEdits
  import opened HeaderCache
  import opened HeaderMaps
  import opened Numerals
  import opened RecordHead

  /** How the payload is read; decoding readers are not modelled. */
  datatype ReaderState =
    | Detached
    | Original(reader: LimitedReader)
    | Frozen(frozen: LimitedReader, orig: Option<LimitedReader>)

  class WarcRecord {
    const headers: HeaderMap
    const quirksMode: bool
    var recordType: RecordType
    var isHttp: bool
    var contentLength: nat
    var httpParsed: bool
    var httpHeaders: HeaderMap?
    var reader: ReaderState
    var streamPos: nat

    /** The objects the record owns. */
    ghost function Repr(): set<object>
      reads this
    {
      {this, headers} + (if httpHeaders == null then {} else {httpHeaders}) +
      match reader
      case Detached => {}
      case Original(r) => {r, r.inner}
      case Frozen(f, None) => {f, f.inner}
      case Frozen(f, Some(o)) => {f, f.inner, o, o.inner}
    }

    ghost predicate Valid()
      reads this, Repr()
    {
      && headers.Valid() && contentLength <= U64_MAX
      && (httpHeaders != null ==> httpHeaders.Valid() && httpHeaders != headers)
      && match reader
         case Detached => true
         case Original(r) => r.Valid()
         case Frozen(f, None) => f.Valid()
         case Frozen(f, Some(o)) => f.Valid() && o.Valid() && o != f && o.inner != f.inner
    }

    function Given(): Fields
      reads this
    {
      Fields(recordType, isHttp, contentLength)
    }

    /** An empty record over a reader whose limit is not set. */
    constructor (stream: TrackedReader, quirksMode: bool)
      requires stream.Valid()
      ensures Valid() && fresh(Repr() - {stream}) && this.quirksMode == quirksMode
      ensures reader.Original? && reader.reader.inner == stream && Unlimited(reader.reader)
      ensures Given() == NO_FIELDS && !httpParsed && httpHeaders == null
    {
      headers := new HeaderMap(Unicode);
      this.quirksMode := quirksMode;
      recordType, isHttp, contentLength := NoType, false, 0;
      httpParsed, httpHeaders := false, null;
      streamPos := stream.pos;
      var limited := new LimitedReader(stream, None);
      reader := Original(limited);
    }

    /** Finds the next version line, and notes where it starts. */
    method FindVersionLine(r: LimitedReader) returns (found: Search, line: bytes, bytesRead: nat)
      requires r.Valid() && Unlimited(r)
      modifies this`streamPos, r, r.inner
      ensures r.Valid() && r.Advanced(bytesRead) && Unlimited(r)
      ensures found == FindVersion(r.inner.data, old(r.inner.pos), quirksMode)
      ensures found.VersionAt? ==>
                && streamPos == found.start && r.inner.pos == found.end && bytesRead > 0
                && line == Text(r.inner.data, found.start, found.end)
    {
      hide LineEnd, Text, TrimEnd, IsVersionLine;
      ghost var s := r.inner.data;
      bytesRead := 0;
      while true
        invariant r.Valid() && r.Advanced(bytesRead) && Unlimited(r)
        invariant FindVersion(s, old(r.inner.pos), quirksMode) == FindVersion(s, r.inner.pos, quirksMode)
        decreases |s| - r.inner.pos
      {
        var start := r.inner.pos;
        streamPos := start;
        line := r.ReadLine(MAX_FIRST_LINE);
        if start < |s| {
          LineEndAdvances(s, start, Min(start + MAX_FIRST_LINE, |s|));
        }
        if |line| == 0 {
          return NoVersion, line, bytesRead;
        }
        bytesRead := bytesRead + |line|;
        var trimmed := TrimEnd(line);
        if |trimmed| == 0 {
          continue;
        }
        if IsVersionLine(trimmed) {
          return VersionAt(start, start + |line|), line, bytesRead;
        } else if !quirksMode {
          return BadLine(start), line, bytesRead;
        }
      }
    }

    /** Takes over record type, content type and length, stopping after three hits. */
    method ReadFields()
      requires headers.Valid()
      modifies this`recordType, this`isHttp, this`contentLength
      ensures Given() == TakeFields(headers.Content().headers, 0, old(Given()))
      ensures old(contentLength) <= U64_MAX ==> contentLength <= U64_MAX
    {
      hide TypeOf, IsHttpType, LengthOf, HeaderMaps.Resolve;
      ghost var all := headers.Content().headers;
      var parseCount := 0;
      for i := 0 to |headers.headers|
        invariant parseCount < 3 && (old(contentLength) <= U64_MAX ==> contentLength <= U64_MAX)
        invariant TakeFields(all, 0, old(Given())) == TakeFields(all[i..], parseCount, Given())
      {
        var h := ResolveTuple(headers.raw, headers.headers[i]);
        assert h == all[i] && all[i..][1..] == all[i + 1..];
        if h.key == WARC_TYPE {
          recordType := TypeOf(h.value);
          parseCount := parseCount + 1;
        } else if h.key == CONTENT_TYPE {
          isHttp := IsHttpType(h.value);
          parseCount := parseCount + 1;
        } else if h.key == CONTENT_LENGTH {
          contentLength := LengthOf(h.value);
          parseCount := parseCount + 1;
        }
        if parseCount == 3 {
          break;
        }
      }
    }

    /** The record holds a head, and its reader stands at the start of the payload. */
    ghost predicate HoldsHead(h: Head)
      requires Valid()
      reads this, Repr()
    {
      && headers.Abs() == h.headers && Given() == h.fields && streamPos == h.start
      && reader.Original?
      && reader.reader.limit == contentLength && reader.reader.pos == 0 && reader.reader.inner.pos == h.body
    }

    /** The record has just been read from `stream`. */
    ghost predicate IsFresh(h: Head, stream: TrackedReader, quirksMode: bool)
      requires Valid()
      reads this, Repr()
    {
      HoldsHead(h) && Stream() == stream && this.quirksMode == quirksMode && !httpParsed && httpHeaders == null
    }

    /** Parses the named fields behind a version line and limits the reader to the payload. */
    method ParseFieldsBehind(limited: LimitedReader, line: bytes, maxHeaderLen: nat) returns (n: Result<nat, IoError>)
      requires headers.Valid() && contentLength <= U64_MAX && line != []
      requires limited.Valid() && Unlimited(limited) && limited.inner.pos <= |limited.inner.data|
      modifies headers, this`recordType, this`isHttp, this`contentLength, limited, limited.inner
      ensures headers.Valid() && limited.Valid() && contentLength <= U64_MAX
      ensures var op := FieldsParse(limited.inner.data, old(limited.inner.pos), quirksMode);
              match n
              case Ok(count) =>
                && headers.Abs() == ApplyOp(SeededMap(line), op)
                && Given() == TakeFields(headers.Content().headers, 0, old(Given()))
                && limited.limit == contentLength && limited.pos == 0
                && limited.inner.pos == TaskOf(SeededMap(line), op).goal.pos == old(limited.inner.pos) + count
              case Err(e) =>
                e == InvalidData && LimitHit(TaskOf(SeededMap(line), op), maxHeaderLen)
    {
      hide TakeFields, ApplyOp, TaskOf, Text, HeaderMaps.Resolve, ResolveValue, ValueFits, TuplesFit, LimitHit;
      headers.Seed(line);
      n := headers.ParseWithOpts(limited, false, maxHeaderLen, quirksMode);
      if n.Ok? {
        ReadFields();
        limited.SetLimit(contentLength);
      }
    }

    /** Parses the head of the next record and limits the reader to its payload. */
    method ParseWarcHeaders(maxHeaderLen: nat) returns (r: Result<nat, IoError>)
      requires Valid() && reader.Original? && Unlimited(reader.reader)
      modifies Repr()
      ensures Valid() && reader == old(reader) && httpHeaders == old(httpHeaders) && httpParsed == old(httpParsed)
      ensures r.Ok? ==>
                match HeadAt(reader.reader.inner.data, old(reader.reader.inner.pos), quirksMode, old(Given()))
                case Found(h) => HoldsHead(h) && r.value == h.body - old(reader.reader.inner.pos)
                case AtEnd => r.value == 0
                case Malformed => false
      ensures r.Err? ==>
                && r.error == InvalidData
                && var s, p := reader.reader.inner.data, old(reader.reader.inner.pos);
                match HeadAt(s, p, quirksMode, old(Given()))
                case Found(_) => HeadTooLong(s, p, quirksMode, maxHeaderLen)
                case AtEnd => false
                case Malformed => true
    {
      hide TakeFields, ApplyOp, TaskOf, FindVersion, Text, HeaderMaps.Resolve, ResolveValue, ValueFits, TuplesFit,
        LimitHit;
      var limited := reader.reader;
      var found, line, bytesRead := FindVersionLine(limited);
      if found.NoVersion? {
        return Ok(0);
      } else if found.BadLine? {
        return Err(InvalidData);
      }
      TextFirst(limited.inner.data, found.start, found.end);
      var n := ParseFieldsBehind(limited, line, maxHeaderLen);
      return if n.Ok? then Ok(bytesRead + n.value) else n;
    }

    // ----------------------------------------------------------------
    // Using the payload
    // ----------------------------------------------------------------

    /**
     The payload ends at `e` on the shared stream, and the reader's limit still
     says so. A frozen record has its payload in memory and left the stream at `e`.
     */
    ghost predicate Anchored(e: nat)
      requires Valid()
      reads this, Repr()
    {
      match reader
      case Detached => false
      case Original(r) => r.Anchor() == e <= |r.inner.data| && r.limit == contentLength
      case Frozen(f, None) => false
      case Frozen(f, Some(o)) =>
        o.inner.pos == e <= |o.inner.data| && (!httpParsed ==> |f.inner.data| <= contentLength)
    }

    /** The record still holds the shared stream. */
    predicate HasStream()
      reads this
    {
      reader.Original? || (reader.Frozen? && reader.orig.Some?)
    }

    /** The shared stream behind the record. */
    function Stream(): TrackedReader
      requires HasStream()
      reads this
    {
      if reader.Original? then reader.reader.inner else reader.orig.value.inner
    }

    /** The reader the payload is read through. */
    function PayloadReader(): (r: LimitedReader)
      requires !reader.Detached?
      reads this
      ensures r in Repr() && r.inner in Repr()
    {
      if reader.Original? then reader.reader else reader.frozen
    }

    /** The objects that using the payload changes. */
    ghost function PayloadFrame(): set<object>
      reads this
    {
      if reader.Detached? then {} else {PayloadReader(), PayloadReader().inner}
    }

    /** Consumes up to `n` bytes of the payload. */
    method ConsumeN(n: nat) returns (r: Result<nat, IoError>)
      requires Valid()
      modifies PayloadFrame()
      ensures Valid()
      ensures r.Err? <==> reader.Detached? && n > 0
      ensures r.Ok? && !reader.Detached? ==>
                && PayloadReader().Advanced(r.value) && PayloadReader().End() == old(PayloadReader().End())
                && r.value == Min(n, old(PayloadReader().End() - PayloadReader().inner.pos))
      ensures forall e :: old(Anchored(e)) ==> Anchored(e)
    {
      if n == 0 {
        return Ok(0);
      }
      if reader.Detached? {
        return Err(NoReader);
      }
      var consumed := PayloadReader().Skip(n);
      return Ok(consumed);
    }

    /** One use of the payload reader. */
    method UsePayload(use: Use) returns (r: Result<bytes, IoError>)
      requires Valid() && !reader.Detached?
      modifies PayloadFrame()
      ensures Valid()
      ensures UseResult(use, r, PayloadReader())
      ensures forall e :: old(Anchored(e)) ==> Anchored(e)
    {
      hide UseResult, HeaderMap.Content, HeaderMap.Valid, TrackedReader.Valid;
      r := UseReader(PayloadReader(), use);
    }

    /** Bakes the rest of the payload into memory; the shared stream is left at its end. */
    method Freeze() returns (r: Result<(), IoError>)
      requires Valid()
      modifies this`reader, this`contentLength, PayloadFrame()
      ensures Valid() && fresh(Repr() - old(Repr()))
      ensures old(reader.Frozen?) ==> r.Ok? && reader == old(reader) && contentLength == old(contentLength)
      ensures old(reader.Frozen?) ==> unchanged(reader.frozen) && unchanged(reader.frozen.inner)
      ensures old(reader.Detached?) ==> r == Err(NoReader) && reader == old(reader)
      ensures old(reader.Original?) ==>
                && r.Ok? && reader.Frozen? && Unlimited(reader.frozen) && reader.frozen.pos == 0
                && contentLength == |reader.frozen.inner.data| && reader.orig == Some(old(reader.reader))
                && reader.frozen.inner.data ==
                   Text(old(reader.reader).inner.data, old(reader.reader.inner.pos), old(reader.reader.End()))
      ensures recordType == old(recordType) && isHttp == old(isHttp) && streamPos == old(streamPos)
      ensures httpParsed == old(httpParsed) && httpHeaders == old(httpHeaders) && headers.Abs() == old(headers.Abs())
      ensures forall e :: old(Anchored(e)) ==> Anchored(e)
    {
      hide HeaderMap.Content, HeaderMap.Valid, HeaderMap.Abs, Text;
      match reader
      case Frozen(_, _) => return Ok(());
      case Detached => return Err(NoReader);
      case Original(orig) =>
        ghost var n := |orig.inner.data|;
        var buf := orig.ReadToEnd();
        TextFits(orig.inner.data, old(orig.inner.pos), orig.inner.pos);
        contentLength := |buf|;
        var memory := new TrackedReader(buf);
        var frozen := new LimitedReader(memory, None);
        reader := Frozen(frozen, Some(orig));
        return Ok(());
    }

    /** There is an HTTP block to parse. */
    predicate HttpPending()
      reads this
    {
      isHttp && !httpParsed
    }

    /** The parse of the HTTP block, as an operation on a header map. */
    ghost function HttpParse(quirks: bool): (op: HeaderOp)
      requires Valid() && !reader.Detached?
      reads this, Repr()
    {
      var p := PayloadReader();
      Parse(p.inner.data, p.inner.pos, p.End(), true, quirks)
    }

    /** Parses an HTTP block into a fresh map and re-bases the limit behind it. */
    method ParseHttpBlock(parsed: HeaderMap, maxHeaderLen: nat, quirks: bool) returns (r: Result<(), IoError>)
      requires !reader.Detached? && PayloadReader().Valid() && parsed.Valid() && contentLength <= U64_MAX
      requires PayloadReader().End() - PayloadReader().inner.pos <= contentLength
      modifies parsed, this`contentLength, PayloadReader(), PayloadReader().inner
      ensures PayloadReader().Valid() && parsed.Valid() && contentLength <= U64_MAX
      ensures r.Err? ==>
                && contentLength == old(contentLength) && r.error == InvalidData
                && PayloadReader().Anchor() == old(PayloadReader().Anchor())
                && PayloadReader().limit == old(PayloadReader().limit)
                && LimitHit(TaskOf(old(parsed.Abs()), old(parsed.ParseOp(PayloadReader(), true, quirks))), maxHeaderLen)
      ensures r.Ok? ==>
                && var p := PayloadReader();
                var op := old(parsed.ParseOp(PayloadReader(), true, quirks));
                var n := p.inner.pos - old(PayloadReader().inner.pos);
                && parsed.Abs() == ApplyOp(old(parsed.Abs()), op)
                && p.inner.pos == TaskOf(old(parsed.Abs()), op).goal.pos
                && contentLength == old(contentLength) - n && p.pos == 0 && p.limit == contentLength
    {
      hide ApplyOp, TaskOf, Text, HeaderMaps.Resolve, ResolveValue, ValueFits, TuplesFit, LimitHit;
      var p := PayloadReader();
      var n := parsed.ParseWithOpts(p, true, maxHeaderLen, quirks);
      if n.Err? {
        return Err(n.error);
      }
      contentLength := contentLength - n.value;
      p.SetLimit(contentLength);
      return Ok(());
    }

    /** Parses the pending HTTP block into a map of its own. */
    method ParsePending(maxHeaderLen: nat, quirks: bool) returns (r: Result<(), IoError>)
      requires Valid() && HttpPending() && !reader.Detached?
      requires PayloadReader().End() - PayloadReader().inner.pos <= contentLength
      modifies this`contentLength, this`httpParsed, this`httpHeaders, PayloadFrame()
      ensures Valid() && fresh(Repr() - old(Repr())) && httpParsed == r.Ok?
      ensures r.Err? ==>
                && contentLength == old(contentLength) && httpHeaders == old(httpHeaders) && r.error == InvalidData
                && PayloadReader().Anchor() == old(PayloadReader().Anchor())
                && PayloadReader().limit == old(PayloadReader().limit)
                && LimitHit(TaskOf(EMPTY_MAP, old(HttpParse(quirks))), maxHeaderLen)
      ensures r.Ok? ==>
                && httpHeaders != null && fresh(httpHeaders)
                && var p := PayloadReader();
                var op := old(HttpParse(quirks));
                && httpHeaders.Abs() == ApplyOp(EMPTY_MAP, op)
                && p.inner.pos == TaskOf(EMPTY_MAP, op).goal.pos
                && contentLength == old(contentLength) - (p.inner.pos - old(PayloadReader().inner.pos))
                && p.pos == 0 && p.limit == contentLength
    {
      hide ApplyOp, TaskOf, Text, HeaderMap.Content, HeaderMap.Valid, HeaderMap.Abs, LimitedReader.End,
        TrackedReader.Valid, LimitHit;
      var parsed := new HeaderMap(Latin1);
      r := ParseHttpBlock(parsed, maxHeaderLen, quirks);
      if r.Ok? {
        httpParsed := true;
        httpHeaders := parsed;
      }
    }

    /**
     Parses the HTTP block at the start of the payload. The limit is re-based by
     the bytes of the block; that keeps the end of the payload in place exactly
     when nothing had been read of it before, and otherwise moves it on by as much.
     */
    method ParseHttp(maxHeaderLen: nat, quirks: bool) returns (r: Result<(), IoError>)
      requires Valid()
      requires HttpPending() && !reader.Detached? ==> PayloadReader().End() - PayloadReader().inner.pos <= contentLength
      modifies this`contentLength, this`httpParsed, this`httpHeaders, PayloadFrame()
      ensures Valid() && fresh(Repr() - old(Repr()))
      ensures !old(HttpPending()) ==> r.Ok? && contentLength == old(contentLength) && httpHeaders == old(httpHeaders)
      ensures !old(HttpPending()) && !reader.Detached? ==> httpParsed == old(httpParsed) && PayloadReader().Advanced(0)
      ensures r.Err? ==> contentLength == old(contentLength) && HttpPending() && httpHeaders == old(httpHeaders)
      ensures r.Err? ==>
                if reader.Detached? then r.error == NoReader
                else r.error == InvalidData && LimitHit(TaskOf(EMPTY_MAP, old(HttpParse(quirks))), maxHeaderLen)
      ensures r.Ok? && old(HttpPending()) ==>
                && !reader.Detached? && httpParsed && httpHeaders != null && fresh(httpHeaders)
                && var p := PayloadReader();
                var op := old(HttpParse(quirks));
                && httpHeaders.Abs() == ApplyOp(EMPTY_MAP, op)
                && p.inner.pos == TaskOf(EMPTY_MAP, op).goal.pos
                && contentLength == old(contentLength) - (p.inner.pos - old(PayloadReader().inner.pos))
                && p.pos == 0 && p.limit == contentLength
      ensures forall e :: old(Anchored(e)) && old(reader.Original?) ==>
                (Anchored(e) <==> r.Err? || !old(HttpPending()) || old(PayloadReader().pos) == 0)
      ensures forall e: nat :: old(Anchored(e)) && old(reader.Original?) && r.Ok? && old(HttpPending()) ==>
                PayloadReader().Anchor() == e + old(PayloadReader().pos)
      ensures forall e :: old(Anchored(e)) && old(reader.Frozen?) ==> Anchored(e)
    {
      hide ApplyOp, TaskOf, Text, HeaderMap.Content, HeaderMap.Valid, HeaderMap.Abs, LimitedReader.End,
        TrackedReader.Valid, LimitHit;
      if httpParsed || !isHttp {
        return Ok(());
      } else if reader.Detached? {
        return Err(NoReader);
      }
      r := ParsePending(maxHeaderLen, quirks);
    }

    /** On an anchored record the HTTP block can never be longer than the content. */
    lemma AnchoredLength(e: nat)
      requires Valid() && Anchored(e) && !httpParsed
      ensures PayloadReader().End() - PayloadReader().inner.pos <= contentLength
    {
    }

    // ----------------------------------------------------------------
    // Writing
    // ----------------------------------------------------------------

    /** The HTTP block in front of the payload, once it has been parsed off. */
    ghost function HttpOutput(): bytes
      requires Valid()
      reads this, Repr()
    {
      if httpParsed && httpHeaders != null then httpHeaders.Output() else []
    }

    /** Sets Content-Length unless it has exactly the printed form of the length. */
    method EnsureContentLength(length: nat)
      requires headers.Valid()
      modifies headers
      ensures headers.Valid()
      ensures headers.Abs() == WithLength(old(headers.Abs()), length)
    {
      hide ApplyOp, Print, GetFirst;
      var text := Print(length, Dec);
      var v := headers.GetBytes(CONTENT_LENGTH);
      if v != Some(text) {
        headers.SetBytes(CONTENT_LENGTH, text);
      }
    }

    /** Reads the payload in blocks of `chunkSize` and appends it to `out`. */
    method CopyPayload(out: bytes, chunkSize: nat) returns (written: bytes, count: nat)
      requires Valid() && !reader.Detached?
      modifies PayloadFrame()
      ensures Valid()
      ensures written == out + old(Unread(chunkSize)) && count == |old(Unread(chunkSize))|
      ensures forall e :: old(Anchored(e)) ==> Anchored(e)
    {
      hide HeaderMap.Content, HeaderMap.Valid, HeaderMap.Abs, Text;
      var p := PayloadReader();
      ghost var start := p.inner.pos;
      written, count := out, 0;
      assert Text(p.inner.data, start, start) == [] by { TextEmpty(p.inner.data, start); }
      while true
        invariant Valid() && p.End() == old(PayloadReader().End()) && start <= p.inner.pos <= p.End()
        invariant written == out + Text(p.inner.data, start, p.inner.pos) && |written| == |out| + count
        invariant p.limit == old(PayloadReader().limit) && p.Anchor() == old(PayloadReader().Anchor())
        invariant chunkSize == 0 ==> p.inner.pos == start
        decreases p.End() - p.inner.pos
      {
        ghost var q := p.inner.pos;
        var part := p.Read(chunkSize);
        if |part| == 0 {
          break;
        }
        TextAppend(out, p.inner.data, start, q, p.inner.pos);
        written := written + part;
        count := count + |part|;
      }
    }

    /** The length of the HTTP block as it will be written. */
    method HttpOutputLength() returns (n: nat)
      requires Valid()
      ensures n == |HttpOutput()|
    {
      n := 0;
      if httpParsed && httpHeaders != null {
        var http;
        http, n := httpHeaders.Write([]);
      }
    }

    /** Writes the WARC header block, its Content-Length made right, and the parsed HTTP block. */
    method WriteHeads(out: bytes, blockLength: nat) returns (written: bytes, count: nat)
      requires Valid()
      modifies headers
      ensures Valid()
      ensures headers.Abs() == WithLength(old(headers.Abs()), blockLength)
      ensures HttpOutput() == old(HttpOutput())
      ensures written == out + headers.Output() + HttpOutput() && count == |headers.Output()| + |HttpOutput()|
    {
      hide HeaderMap.Content, HeaderMap.Valid, HeaderMap.Abs, HeaderMap.Output, WithLength, TrackedReader.Valid;
      EnsureContentLength(blockLength);
      written, count := headers.Write(out);
      if httpParsed && httpHeaders != null {
        var n;
        written, n := httpHeaders.Write(written);
        count := count + n;
      }
    }

    /** Writes header blocks, payload and record end. */
    method WriteParts(out: bytes, chunkSize: nat, blockLength: nat) returns (written: bytes, count: nat)
      requires Valid() && !reader.Detached?
      modifies headers, PayloadFrame()
      ensures Valid()
      ensures headers.Abs() == WithLength(old(headers.Abs()), blockLength) && HttpOutput() == old(HttpOutput())
      ensures written == out + headers.Output() + HttpOutput() + old(Unread(chunkSize)) + RECORD_END
      ensures count == |written| - |out|
      ensures forall e :: old(Anchored(e)) ==> Anchored(e)
    {
      hide HeaderMap.Content, HeaderMap.Valid, HeaderMap.Abs, HeaderMap.Output, Text, WithLength, TrackedReader.Valid;
      var n;
      written, count := WriteHeads(out, blockLength);
      written, n := CopyPayload(written, chunkSize);
      return written + RECORD_END, count + n + 4;
    }

    /** Writes the record, with the length of HTTP block and content, and counts what was written. */
    method Write(out: bytes, chunkSize: nat) returns (r: Result<bytes, IoError>, count: nat)
      requires Valid()
      modifies headers, PayloadFrame()
      ensures Valid()
      ensures r.Err? <==> reader.Detached?
      ensures r.Ok? ==>
                && headers.Abs() == WithLength(old(headers.Abs()), contentLength + |HttpOutput()|)
                && HttpOutput() == old(HttpOutput()) && count == |r.value| - |out|
                && r.value == out + headers.Output() + HttpOutput() + old(Unread(chunkSize)) + RECORD_END
      ensures forall e :: old(Anchored(e)) ==> Anchored(e)
    {
      hide HeaderMap.Content, HeaderMap.Valid, HeaderMap.Abs, HeaderMap.Output, Text, WithLength, TrackedReader.Valid;
      if reader.Detached? {
        return Err(NoReader), 0;
      }
      var httpLen := HttpOutputLength();
      var written;
      written, count := WriteParts(out, chunkSize, contentLength + httpLen);
      return Ok(written), count;
    }

    /** What is left of the payload, as reads of `chunkSize` deliver it. */
    ghost function Unread(chunkSize: nat): bytes
      requires Valid() && !reader.Detached?
      reads this, Repr()
    {
      var p := PayloadReader();
      if chunkSize == 0 then [] else Text(p.inner.data, p.inner.pos, p.End())
    }

    lemma UnreadInBlocks(chunkSize: nat)
      requires Valid() && !reader.Detached?
      ensures Unread(chunkSize) == if chunkSize == 0 then [] else Unread(1)
    {
    }

    /** What is announced when an anchored record is written is what is copied exactly when nothing of it was read. */
    lemma AnnouncesCopyIff(chunkSize: nat, e: nat)
      requires Valid() && Anchored(e) && reader.Original?
      ensures contentLength == |Unread(chunkSize)| <==> contentLength == 0 || (chunkSize > 0 && reader.reader.pos == 0)
    {
      var p := reader.reader;
      TextLength(p.inner.data, p.inner.pos, p.End());
    }

    // ----------------------------------------------------------------
    // Moving on
    // ----------------------------------------------------------------

    /** Where the shared stream stands once what is left of the payload is skipped. */
    ghost function NextStart(): (p: nat)
      requires Valid() && HasStream()
      reads this, Repr()
    {
      if reader.Frozen? then reader.orig.value.inner.pos
      else if contentLength == 0 then reader.reader.inner.pos
      else reader.reader.inner.pos + Min(contentLength, reader.reader.End() - reader.reader.inner.pos)
    }

    /** For an anchored record that is the end of its payload, whatever was done with it. */
    lemma AnchoredNext(e: nat)
      requires Valid() && Anchored(e)
      ensures HasStream() && NextStart() == e
    {
    }

    /** Skips what is left of the payload, unless it is in memory already. */
    method SkipPayload() returns (r: Result<nat, IoError>)
      requires Valid()
      modifies PayloadFrame()
      ensures Valid() && (r.Err? <==> reader.Detached? && contentLength > 0)
      ensures HasStream() ==> Stream().pos == old(NextStart())
    {
      if reader.Frozen? || contentLength == 0 {
        return Ok(0);
      }
      r := ConsumeN(contentLength);
    }

    /**
     Reads the next record into this one. The content length of the record
     before is not reset, and a frozen record ends the iteration.
     */
    method NextInplace(maxHeaderLen: nat) returns (r: Inplace)
      requires Valid()
      modifies Repr()
      ensures Valid() && Repr() <= old(Repr()) && reader == old(reader)
      ensures !old(reader.Original?) ==> r == if old(reader.Detached? && contentLength > 0) then Broken else Ended
      ensures old(reader.Original?) ==> httpHeaders == null
      ensures old(reader.Original?) ==>
                match HeadAt(Stream().data, old(NextStart()), quirksMode, NO_FIELDS.(contentLength := old(contentLength)))
                case Found(h) =>
                  if r == Updated then IsFresh(h, old(Stream()), quirksMode)
                  else r == Broken && HeadTooLong(Stream().data, old(NextStart()), quirksMode, maxHeaderLen)
                case AtEnd => r == Ended
                case Malformed => r == Broken
    {
      hide HeadAt, HeadTooLong, HeaderMap.Content, HeaderMap.Valid, HeaderMap.Abs, TrackedReader.Valid, NextStart;
      var skipped := SkipPayload();
      if skipped.Err? {
        return Broken;
      } else if !reader.Original? {
        return Ended;
      }
      reader.reader.ResetLimit();
      recordType := NoType;
      isHttp := false;
      httpParsed := false;
      httpHeaders := null;
      var n := ParseWarcHeaders(maxHeaderLen);
      match n
      case Err(error) => return Broken;
      case Ok(count) => return if count == 0 then Ended else Updated;
    }

    /** Hands the shared stream back; a record that is frozen keeps its payload. */
    method DetachReader() returns (stream: TrackedReader?)
      requires Valid()
      modifies this`reader
      ensures Valid() && Repr() <= old(Repr())
      ensures match old(reader)
              case Detached => stream == null && reader == old(reader)
              case Original(r) => stream == r.inner && reader == Detached
              case Frozen(f, None) => stream == null && reader == old(reader)
              case Frozen(f, Some(o)) => stream == o.inner && reader == Frozen(f, None)
    {
      match reader
      case Detached => return null;
      case Original(r) =>
        reader := Detached;
        return r.inner;
      case Frozen(f, orig) =>
        reader := Frozen(f, None);
        return if orig.Some? then orig.value.inner else null;
    }
  }

  /** What a caller may do with the payload reader. */
  datatype Use =
    | ReadUpTo(len: nat) | ReadOneLine(max: nat) | ReadRest | PeekAndConsume(amount: nat) | SeekTo(from: SeekFrom)

  /** What a use delivers, and where it leaves the reader; reads and peeks come up empty only at the end. */
  twostate predicate UseResult(use: Use, new r: Result<bytes, IoError>, p: LimitedReader)
    requires old(p.Valid()) && p.Valid()
    reads p, p.inner
  {
    && (use.ReadUpTo? || use.ReadOneLine? || use.ReadRest? ==>
          && r.Ok? && p.Advanced(|r.value|) && r.value == Text(p.inner.data, old(p.inner.pos), p.inner.pos))
    && (use.ReadUpTo? ==>
          |r.value| <= use.len && (|r.value| == 0 <==> use.len == 0 || old(p.inner.pos) == old(p.End())))
    && (use.ReadRest? ==> p.inner.pos == p.End())
    && (use.ReadOneLine? ==>
          && old(p.inner.pos) <= p.End()
          && p.inner.pos == LineEnd(p.inner.data, old(p.inner.pos), Min(old(p.inner.pos) + use.max, p.End())))
    && (use.PeekAndConsume? ==>
          && r.Ok? && r.value == Text(p.inner.data, old(p.inner.pos), old(p.inner.pos) + |r.value|)
          && (|r.value| == 0 <==> old(p.inner.pos) == old(p.End()))
          && p.Advanced(Min(use.amount, |r.value|)))
    && (use.SeekTo? && r.Ok? ==> p.pos == ClampedTarget(use.from, old(p.pos), p.limit))
    && (use.SeekTo? && r.Err? ==>
          && p.Advanced(0) && use.from != Current(0)
          && (!(0 <= SeekTarget(use.from, old(p.pos), p.limit) <= I64_MAX)
              || p.inner.pos - p.pos + ClampedTarget(use.from, old(p.pos), p.limit) > I64_MAX))
  }

  /** Uses a reader; its window stays where it is. */
  method UseReader(p: LimitedReader, use: Use) returns (r: Result<bytes, IoError>)
    requires p.Valid()
    modifies p, p.inner
    ensures p.Valid() && p.limit == old(p.limit) && p.Anchor() == old(p.Anchor())
    ensures UseResult(use, r, p)
  {
    hide LineEnd, Text, TrackedReader.Valid;
    match use
    case ReadUpTo(n) =>
      var out := p.Read(n);
      return Ok(out);
    case ReadOneLine(n) =>
      var out := p.ReadLine(n);
      return Ok(out);
    case ReadRest =>
      var out := p.ReadToEnd();
      return Ok(out);
    case PeekAndConsume(n) =>
      var w := p.FillBuf();
      p.Consume(Min(n, |w|));
      return Ok(w);
    case SeekTo(from) =>
      var pos := p.Seek(from);
      return if pos.Ok? then Ok([]) else Err(pos.error);
  }

  /** What asking for the next record in place yields. */
  datatype Inplace = Updated | Ended | Broken

  /** What asking for the next record yields. */
  datatype Next = NoMore | Record(record: WarcRecord) | Failed(error: IoError)

  /** Reads one record from where a stream stands. */
  method FromReader(stream: TrackedReader, quirksMode: bool, maxHeaderLen: nat) returns (r: Next)
    requires stream.Valid()
    modifies stream
    ensures r.Record? ==> fresh(r.record) && r.record.Valid() && fresh(r.record.Repr() - {stream})
    ensures match HeadAt(stream.data, old(stream.pos), quirksMode, NO_FIELDS)
            case Found(h) =>
              if r.Record? then r.record.IsFresh(h, stream, quirksMode)
              else r.Failed? && HeadTooLong(stream.data, old(stream.pos), quirksMode, maxHeaderLen)
            case AtEnd => r == NoMore
            case Malformed => r.Failed?
  {
    hide HeadAt, HeadTooLong, HeaderMaps.Resolve, ResolveValue, ValueFits, TuplesFit;
    var record := new WarcRecord(stream, quirksMode);
    var n := record.ParseWarcHeaders(maxHeaderLen);
    match n
    case Err(error) => return Failed(error);
    case Ok(count) => return if count == 0 then NoMore else Record(record);
  }

  /**
   The next record on the stream of a record: its head is the one that is found
   behind the payload. The record loses its stream.
   */
  method NextRecord(cur: WarcRecord, maxHeaderLen: nat) returns (r: Next)
    requires cur.Valid()
    modifies cur.Repr()
    ensures !old(cur.HasStream()) ==> if old(cur.reader.Detached? && cur.contentLength > 0) then r.Failed? else r == NoMore
    ensures r.Record? && old(cur.HasStream()) ==>
              fresh(r.record) && r.record.Valid() && fresh(r.record.Repr() - {old(cur.Stream())})
    ensures old(cur.HasStream()) ==>
              var stream, start := old(cur.Stream()), old(cur.NextStart());
              match HeadAt(stream.data, start, cur.quirksMode, NO_FIELDS)
              case Found(h) =>
                if r.Record? then r.record.IsFresh(h, stream, cur.quirksMode)
                else r.Failed? && HeadTooLong(stream.data, start, cur.quirksMode, maxHeaderLen)
              case AtEnd => r == NoMore
              case Malformed => r.Failed?
  {
    hide HeadAt, HeadTooLong, HeaderMap.Content, HeaderMap.Valid, HeaderMap.Abs, TrackedReader.Valid, WarcRecord.HoldsHead,
      WarcRecord.NextStart;
    var skipped := cur.SkipPayload();
    if skipped.Err? {
      return Failed(skipped.error);
    }
    var stream := cur.DetachReader();
    if stream == null {
      return NoMore;
    }
    r := FromReader(stream, cur.quirksMode, maxHeaderLen);
  }

  lemma TextEmpty(s: bytes, a: nat)
    ensures Text(s, a, a) == []
  {
  }

  /** The header map after its Content-Length was made to match. */
  function WithLength(m: MapState, length: nat): (r: MapState) {
    var text := Print(length, Dec);
    if GetFirst(m.block.headers, CONTENT_LENGTH) == Some(text) then m
    else ApplyOp(m, Set(CONTENT_LENGTH, text))
  }

  lemma TextLength(s: bytes, a: nat, b: nat)
    requires a <= b && (a < b ==> b <= |s|)
    ensures |Text(s, a, b)| == b - a
  {
  }

  lemma TextFits(s: bytes, a: nat, b: nat)
    ensures |Text(s, a, b)| <= |s|
  {
  }

  /** The reader counts from the start of the stream and may read all of it. */
  ghost predicate Unlimited(r: LimitedReader)
    reads r, r.inner
  {
    r.limit == U64_MAX && r.pos == r.inner.pos
  }
}

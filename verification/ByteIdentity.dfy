/**
 Reading a record from bytes and writing it again (fastwarc-rs/src/warc/record.rs,
 `from_bytes` and `write`): when the output is the input, byte for byte.
 */
module ByteIdentity {
  import opened Wrappers
  import opened ByteStrings
  import opened Readers
  import opened HeaderScan
  import opened HeaderEdits
  import opened HeaderText
  import opened HeaderTextExact
  import opened HeaderCache
  import opened HeaderMaps
  import opened Numerals
  import opened RecordHead
  import opened ArchiveFormat
  import opened Records

  /** The Content-Length stands in the block the way it would be printed. */
  predicate CanonicalLength(r: ArchiveRecord) {
    GetFirst(BlockScan(r, false).state.block.headers, CONTENT_LENGTH) == Some(Print(|r.payload|, Dec))
  }

  /** The payload a record read from `input` gets: a truncated one ends with the input. */
  function PayloadOf(input: bytes, h: Head): bytes {
    Text(input, h.body, Min(h.body + h.fields.contentLength, |input|))
  }

  /** The record is what `from_bytes` makes of a head: frozen, and without a stream behind it. */
  ghost predicate InMemory(rec: WarcRecord, h: Head, payload: bytes)
    requires rec.Valid()
    reads rec, rec.Repr()
  {
    && rec.headers.Abs() == h.headers && rec.Given() == h.fields.(contentLength := |payload|)
    && !rec.httpParsed && rec.httpHeaders == null
    && rec.reader.Frozen? && rec.reader.orig == None && Unlimited(rec.reader.frozen) && rec.reader.frozen.pos == 0
    && rec.reader.frozen.inner.data == payload
  }

  /** Reads a record from bytes and bakes its payload in. */
  method FromBytes(input: bytes) returns (r: Result<WarcRecord, IoError>)
    requires |input| <= I64_MAX
    ensures r.Ok? ==> fresh(r.value) && r.value.Valid() && fresh(r.value.Repr())
    ensures match HeadAt(input, 0, false, NO_FIELDS)
            case Found(h) => r.Ok? && InMemory(r.value, h, PayloadOf(input, h))
            case AtEnd => r == Err(UnexpectedEof)
            case Malformed => r.Err?
  {
    hide HeadAt, HeadTooLong, HeaderMap.Content, HeaderMap.Valid, HeaderMap.Abs, TrackedReader.Valid, Text;
    var stream := new TrackedReader(input);
    NeverTooLong(input, 0, false);
    var next := FromReader(stream, false, U64_MAX);
    match next
    case NoMore => return Err(UnexpectedEof);
    case Failed(error) => return Err(error);
    case Record(rec) =>
      assert PayloadOf(input, HeadAt(input, 0, false, NO_FIELDS).head) == rec.Unread(1);
      BakeIn(rec);
      return Ok(rec);
  }

  /** Freezes a record and lets go of the stream it came from. */
  method BakeIn(rec: WarcRecord)
    requires rec.Valid() && rec.reader.Original?
    modifies rec, rec.PayloadFrame()
    ensures rec.Valid() && fresh(rec.Repr() - old(rec.Repr()))
    ensures rec.headers.Abs() == old(rec.headers.Abs()) && rec.streamPos == old(rec.streamPos)
    ensures rec.Given() == old(rec.Given()).(contentLength := |old(rec.Unread(1))|)
    ensures rec.httpParsed == old(rec.httpParsed) && rec.httpHeaders == old(rec.httpHeaders)
    ensures rec.reader.Frozen? && rec.reader.orig == None && Unlimited(rec.reader.frozen) && rec.reader.frozen.pos == 0
    ensures rec.reader.frozen.inner.data == old(rec.Unread(1))
  {
    hide HeaderMap.Content, HeaderMap.Valid, HeaderMap.Abs, TrackedReader.Valid, Text, LimitedReader.End, WarcRecord.Anchored;
    var frozen := rec.Freeze();
    rec.reader := Frozen(rec.reader.frozen, None);
  }

  lemma NeverTooLong(s: bytes, p: nat, quirks: bool)
    requires |s| <= I64_MAX
    ensures !HeadTooLong(s, p, quirks, U64_MAX)
  {
    hide Scan, LineEnd;
    var f := FindVersion(s, p, quirks);
    if f.VersionAt? {
      var t := TaskOf(SeededMap(Text(s, f.start, f.end)), FieldsParse(s, f.end, quirks));
      assert t.start <= t.goal.pos <= |s|;
    }
  }

  /** The bytes of one well-formed record are read as that record. */
  lemma SingleRecord(r: ArchiveRecord)
    requires GoodRecord(r, false)
    ensures var h := HeadOf(r, 0, false);
            && HeadAt(RecordText(r), 0, false, NO_FIELDS) == Found(h)
            && PayloadOf(RecordText(r), h) == r.payload && h.fields.contentLength == |r.payload|
            && h.headers == MapState(false, r.version + r.block, BlockScan(r, false).state.block)
  {
    hide HeadAt, HeadTooLong, Holds, GoodVersion, BlockScan, TakeFields;
    var input := RecordText(r);
    HoldsAll(input);
    assert input == r.version + (r.block + (r.payload + RECORD_END));
    RecordFound(input, 0, r, r.payload + RECORD_END, false);
    HoldsRest(input, |r.version| + |r.block|, r.payload, RECORD_END);
  }

  // ------------------------------------------------------------------
  // The written form
  // ------------------------------------------------------------------

  /** What a record writes: its header map, the HTTP block and the rest of the payload. */
  function Written(m: MapState, http: bytes, rest: bytes): (r: bytes) {
    OutputOf(m) + http + rest + RECORD_END
  }

  function WholeHead(r: ArchiveRecord): (m: MapState) {
    MapState(false, r.version + r.block, BlockScan(r, false).state.block)
  }

  /** A non-empty payload has a non-empty HTTP block, and the map of it writes just that block. */
  lemma HttpBlockOutput(payload: bytes, quirks: bool)
    ensures var op := Parse(payload, 0, |payload|, true, quirks);
            && TaskOf(EMPTY_MAP, op).goal.pos == HttpLength(payload, quirks)
            && TaskOf(EMPTY_MAP, op).seed == [] && TaskOf(EMPTY_MAP, op).start == 0
            && OutputOf(ApplyOp(EMPTY_MAP, op)) == if payload == [] then CRLF else HttpText(payload, quirks)
    ensures payload != [] ==> HttpLength(payload, quirks) > 0
  {
    hide PushLine;
    var st := ScanState(EMPTY_BLOCK, true);
    assert [] + HttpText(payload, quirks) == HttpText(payload, quirks);
    if payload == [] {
      EmptySerializes();
    }
  }

  /** The Content-Length that is in the block already is not touched. */
  lemma LengthKept(r: ArchiveRecord)
    requires CanonicalLength(r)
    ensures WithLength(WholeHead(r), |r.payload|) == WholeHead(r)
  {
    hide BlockScan, GetFirst, Print, ApplyOp;
  }

  /** With the head as it was, the output is the input when nothing of the payload is missing. */
  lemma WrittenIffComplete(r: ArchiveRecord, http: bytes, rest: bytes)
    requires r.version + r.block != []
    requires http + rest <= r.payload
    ensures Written(WholeHead(r), http, rest) == RecordText(r) <==> http + rest == r.payload
  {
    hide BlockScan;
    var head := r.version + r.block;
    assert Written(WholeHead(r), http, rest) == head + (http + rest) + RECORD_END;
    assert RecordText(r) == head + r.payload + RECORD_END;
  }

  // ------------------------------------------------------------------
  // An empty HTTP block
  // ------------------------------------------------------------------

  lemma {:induction false} EolBefore(s: bytes, p: nat, end: nat, m: nat)
    requires p <= m && m + 2 <= end <= |s| && s[m] == CR && s[m + 1] == LF
    ensures NextEol(s, p, end, false).Some? && NextEol(s, p, end, false).value <= m + 2
    decreases m - p
  {
    if !EolAt(s, p, false) {
      EolBefore(s, p + 1, end, m);
    }
  }

  /** Two line ends in a row end a block at the latest. */
  lemma {:induction false} ScanStopsAtEmptyLine(st: ScanState, s: bytes, p: nat, end: nat, m: nat)
    requires p <= m && m + 4 <= end <= |s| && Text(s, m, m + 4) == RECORD_END
    ensures Scan(st, s, p, end, false).pos <= m + 4
    decreases m - p
  {
    hide PushLine, NextEol, Scan, Text;
    SliceBytes(s, m);
    EolBefore(s, p, end, m);
    var e := NextEol(s, p, end, false).value;
    NextEolAt(s, p, end, false, e);
    ScanLine(st, s, p, end, false, e);
    if !EndsBlock(Text(s, p, e), false) {
      var next := PushLine(st, Text(s, p, e));
      if e <= m {
        ScanStopsAtEmptyLine(next, s, e, end, m);
      } else {
        ScanEmptyLineAt(next, s, m + 2, end);
      }
    }
  }

  lemma SliceBytes(s: bytes, m: nat)
    requires m + 4 <= |s| && Text(s, m, m + 4) == RECORD_END
    ensures s[m] == CR && s[m + 1] == LF && s[m + 2] == CR && s[m + 3] == LF
  {
    assert s[m] == s[m..m + 4][0] && s[m + 1] == s[m..m + 4][1] && s[m + 2] == s[m..m + 4][2] && s[m + 3] == s[m..m + 4][3];
  }

  lemma ScanEmptyLineAt(st: ScanState, s: bytes, p: nat, end: nat)
    requires p + 2 <= end <= |s| && s[p] == CR && s[p + 1] == LF
    ensures Scan(st, s, p, end, false).pos == p + 2
  {
    assert NextEol(s, p, end, false) == Some(p + 2);
  }

  lemma {:induction false} FieldsTextEnds(hs: seq<Header>)
    requires hs != []
    ensures var t := FieldsText(hs); |t| >= 4 && t[|t| - 4..] == RECORD_END
  {
    hide FieldBody;
    var t := FieldsText(hs);
    if |hs| > 1 {
      FieldsTextEnds(hs[1..]);
      var u := FieldsText(hs[1..]);
      assert t == FieldBody(hs[0]) + CRLF + u;
      assert t[|t| - 4..] == u[|u| - 4..];
    } else {
      assert FieldsText(hs[1..]) == CRLF;
      assert t == FieldBody(hs[0]) + (CRLF + CRLF);
    }
  }

  /** A good version line is written without its line end, which comes back as CRLF. */
  lemma VersionTrims(v: bytes)
    requires GoodVersion(v)
    ensures Trim(v) != [] && LF !in Trim(v)
  {
    hide IsVersionLine;
    TrimEndCuts(v);
    TrimEndEmpty(v);
    TrimEmptyOnlySpace(v);
    var a, b := TrimSplit(v);
    var t := Trim(v);
    assert forall i :: 0 <= i < |t| ==> t[i] == v[|a| + i];
    assert t[|t| - 1] == v[|a| + |t| - 1];
  }

  lemma TrimEmptyOnlySpace(v: bytes)
    ensures Trim(v) == [] ==> AllSpace(v)
  {
    var a, b := TrimSplit(v);
  }

  /** A head with an empty line inside is not the head of a good record. */
  lemma NoEmptyLineInside(r: ArchiveRecord, head: bytes)
    requires GoodRecord(r, false)
    requires 4 <= |head| && head[|head| - 4..] == RECORD_END
    requires |Trim(r.version)| + 2 <= |head| - 4 && head[|Trim(r.version)| + 1] == LF
    ensures r.version + r.block != head + CRLF
  {
    hide PushLine, Scan, TrimEnd, Trim, IsVersionLine, TakeFields;
    var s := r.version + r.block;
    if s == head + CRLF {
      var v, m, k := |r.version|, |head| - 4, |Trim(r.version)|;
      assert s[k + 1] == LF;
      assert v <= k + 2;
      assert Text(s, m, m + 4) == RECORD_END;
      var st := ScanState(Block(Some(Trim(r.version)), []), false);
      assert Text(s, v, v + |r.block|) == r.block;
      BlockTransfers(s, v, r.block, st, false);
      ScanStopsAtEmptyLine(st, s, v, |s|, m);
    }
  }

  /** Changing the Content-Length makes the written head end in an empty line of its own. */
  lemma ChangedLengthOutput(r: ArchiveRecord)
    requires GoodRecord(r, false) && CanonicalLength(r) && r.payload == []
    ensures var head := OutputOf(WithLength(WholeHead(r), 2));
            && |Trim(r.version)| + 2 <= |head| - 4 && head[|Trim(r.version)| + 1] == LF
            && head[|head| - 4..] == RECORD_END
  {
    hide GoodVersion, TakeFields, GetAll, Overwrite, Sanitize, Trim, Scan;
    var hs := BlockScan(r, false).state.block.headers;
    var m := WithLength(WholeHead(r), 2);
    assert Print(0, Dec) == [48] && Print(2, Dec) == [50];
    assert m == ApplyOp(WholeHead(r), Set(CONTENT_LENGTH, Print(2, Dec)));
    SetKeepsSome(hs, CONTENT_LENGTH, Print(2, Dec));
    FieldsTextEnds(m.block.headers);
    ScanPlain(ScanState(Block(Some(Trim(r.version)), []), false), r.block, 0, |r.block|, false);
    VersionTrims(r.version);
    assert OutputOf(m) == Trim(r.version) + CRLF + FieldsText(m.block.headers);
  }

  lemma SetKeepsSome(hs: seq<Header>, key: bytes, value: bytes)
    ensures SetField(hs, key, value) != []
  {
    SetThenGet(hs, key, value, []);
  }

  /** After parsing an empty HTTP block, writing adds a line end and changes the length. */
  lemma EmptyHttpDiffers(r: ArchiveRecord)
    requires GoodRecord(r, false) && CanonicalLength(r) && r.payload == []
    ensures Written(WithLength(WholeHead(r), 2), CRLF, []) != RecordText(r)
  {
    hide GoodRecord, WithLength, OutputOf, Trim, BlockScan;
    var head := OutputOf(WithLength(WholeHead(r), 2));
    ChangedLengthOutput(r);
    NoEmptyLineInside(r, head);
    assert RecordText(r)[..|r.version| + |r.block|] == r.version + r.block;
    assert Written(WithLength(WholeHead(r), 2), CRLF, []) == head + CRLF + RECORD_END;
  }

  // ------------------------------------------------------------------
  // Byte identity
  // ------------------------------------------------------------------

  /** The HTTP block that is parsed off and written again. */
  function HttpPart(r: ArchiveRecord, httpParsed: bool, quirks: bool): bytes {
    if !httpParsed then [] else if r.payload == [] then CRLF else HttpText(r.payload, quirks)
  }

  function HttpUsed(r: ArchiveRecord, httpParsed: bool, quirks: bool): nat {
    if httpParsed then HttpLength(r.payload, quirks) else 0
  }

  /** The rest of the payload, as it is copied. */
  function RestPart(r: ArchiveRecord, httpParsed: bool, quirks: bool, chunkSize: nat): bytes {
    if chunkSize == 0 then [] else Text(r.payload, HttpUsed(r, httpParsed, quirks), |r.payload|)
  }

  /**
   The output is the input unless an empty HTTP block was parsed off, or a chunk
   size of zero keeps payload back.
   */
  predicate Reproducible(r: ArchiveRecord, httpParsed: bool, quirks: bool, chunkSize: nat) {
    && !(httpParsed && r.payload == [])
    && (chunkSize > 0 || HttpUsed(r, httpParsed, quirks) == |r.payload|)
  }

  /** HTTP block and copied rest are the payload, or a part of it that is missing what a chunk size of zero keeps back. */
  lemma PartsOfPayload(r: ArchiveRecord, httpParsed: bool, quirks: bool, chunkSize: nat)
    requires !(httpParsed && r.payload == [])
    ensures var http, rest := HttpPart(r, httpParsed, quirks), RestPart(r, httpParsed, quirks, chunkSize);
            && http + rest <= r.payload && |http| == HttpUsed(r, httpParsed, quirks)
            && (http + rest == r.payload <==> Reproducible(r, httpParsed, quirks, chunkSize))
  {
    hide HttpLength;
    var k, n := HttpUsed(r, httpParsed, quirks), |r.payload|;
    assert HttpPart(r, httpParsed, quirks) == r.payload[..k];
    assert r.payload[..k] + r.payload[k..] == r.payload;
    assert Text(r.payload, k, n) == r.payload[k..];
  }

  lemma OutputIffReproducible(r: ArchiveRecord, httpParsed: bool, quirks: bool, chunkSize: nat)
    requires GoodRecord(r, false) && CanonicalLength(r)
    ensures var http, rest := HttpPart(r, httpParsed, quirks), RestPart(r, httpParsed, quirks, chunkSize);
            var m := WithLength(WholeHead(r), |r.payload| - HttpUsed(r, httpParsed, quirks) + |http|);
            Written(m, http, rest) == RecordText(r) <==> Reproducible(r, httpParsed, quirks, chunkSize)
  {
    hide *;
    if httpParsed && r.payload == [] {
      EmptyPart(r, quirks, chunkSize);
      EmptyHttpDiffers(r);
    } else {
      PartsOfPayload(r, httpParsed, quirks, chunkSize);
      LengthKept(r);
      GoodVersionNotEmpty(r);
      WrittenIffComplete(r, HttpPart(r, httpParsed, quirks), RestPart(r, httpParsed, quirks, chunkSize));
    }
  }

  lemma EmptyPart(r: ArchiveRecord, quirks: bool, chunkSize: nat)
    requires r.payload == []
    ensures HttpPart(r, true, quirks) == CRLF && |CRLF| == 2 && RestPart(r, true, quirks, chunkSize) == []
    ensures HttpUsed(r, true, quirks) == 0 && !Reproducible(r, true, quirks, chunkSize)
  {
    hide ScanBehind;
  }

  lemma GoodVersionNotEmpty(r: ArchiveRecord)
    requires GoodRecord(r, false)
    ensures r.version + r.block != []
  {
    hide BlockScan, TakeFields, TrimEnd;
    assert |r.version + r.block| > 0;
  }

  /** The record is ready to be written: the HTTP block may have been parsed off. */
  ghost predicate ReadyToWrite(rec: WarcRecord, r: ArchiveRecord, httpParsed: bool, quirks: bool)
    requires rec.Valid()
    reads rec, rec.Repr()
  {
    && rec.reader.Frozen? && rec.headers.Abs() == WholeHead(r)
    && var f := rec.reader.frozen;
    && f.inner.data == r.payload && f.End() == |r.payload| && f.inner.pos == HttpUsed(r, httpParsed, quirks)
    && rec.HttpOutput() == HttpPart(r, httpParsed, quirks)
    && rec.contentLength == |r.payload| - f.inner.pos
  }

  method MaybeParseHttp(rec: WarcRecord, parseHttp: bool, quirks: bool, httpMax: nat, ghost r: ArchiveRecord)
    returns (res: Result<(), IoError>)
    requires rec.Valid() && InMemory(rec, HeadOf(r, 0, false), r.payload)
    modifies rec.Repr()
    ensures rec.Valid() && fresh(rec.Repr() - old(rec.Repr()))
    ensures res.Ok? ==> ReadyToWrite(rec, r, parseHttp && FieldsOf(r, false).isHttp, quirks)
    ensures res.Err? ==> httpMax < 2 * HttpLength(r.payload, quirks)
  {
    hide HeaderMap.Content, HeaderMap.Valid, HeaderMap.Abs, TrackedReader.Valid, Text, HttpLength, OutputOf, ApplyOp,
      TaskOf, BlockScan, TakeFields;
    if parseHttp {
      res := rec.ParseHttp(httpMax, quirks);
      HttpBlockOutput(r.payload, quirks);
    } else {
      res := Ok(());
    }
  }

  /** Writes a record that is ready, its Content-Length made right. */
  method WriteReady(rec: WarcRecord, chunkSize: nat, ghost r: ArchiveRecord, ghost httpParsed: bool,
                    ghost quirks: bool) returns (out: bytes)
    requires rec.Valid() && ReadyToWrite(rec, r, httpParsed, quirks)
    modifies rec.Repr()
    ensures var http, rest := HttpPart(r, httpParsed, quirks), RestPart(r, httpParsed, quirks, chunkSize);
            out == Written(WithLength(WholeHead(r), |r.payload| - HttpUsed(r, httpParsed, quirks) + |http|), http, rest)
  {
    hide HeaderMap.Content, HeaderMap.Valid, HeaderMap.Abs, TrackedReader.Valid, Text, HttpLength, OutputOf,
      WithLength, HttpPart, HttpUsed, BlockScan, TakeFields;
    var written, count := rec.Write([], chunkSize);
    out := written.value;
    assert [] + rec.headers.Output() == rec.headers.Output();
  }

  /** Reads a record from bytes, possibly parses its HTTP block in either mode, and writes it. */
  method Reproduce(input: bytes, parseHttp: bool, quirks: bool, httpMax: nat, chunkSize: nat, ghost r: ArchiveRecord)
    returns (out: Result<bytes, IoError>)
    requires |input| <= I64_MAX && input == RecordText(r) && GoodRecord(r, false) && CanonicalLength(r)
    ensures out.Err? ==> httpMax < 2 * HttpLength(r.payload, quirks)
    ensures out.Ok? ==> (out.value == input <==> Reproducible(r, parseHttp && FieldsOf(r, false).isHttp, quirks, chunkSize))
  {
    hide GoodRecord, CanonicalLength, HeadOf, HeadAt, WithLength, RecordText, HttpPart, HttpUsed, FieldsOf, RestPart,
      Written,
      WholeHead, Reproducible, ReadyToWrite, HttpLength, InMemory, PayloadOf, WarcRecord.Valid, WarcRecord.Repr;
    SingleRecord(r);
    var read := FromBytes(input);
    var rec := read.value;
    var parsed := MaybeParseHttp(rec, parseHttp, quirks, httpMax, r);
    if parsed.Err? {
      return Err(parsed.error);
    }
    ghost var httpParsed := parseHttp && FieldsOf(r, false).isHttp;
    OutputIffReproducible(r, httpParsed, quirks, chunkSize);
    var written := WriteReady(rec, chunkSize, r, httpParsed, quirks);
    return Ok(written);
  }
}

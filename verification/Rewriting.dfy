/**
 Copying an archive with edited headers, by iterating over it and writing every
 record (fastwarc-rs/src/warc/record.rs): the copy is a well-formed archive with
 the same payloads, and reads back as such.
 */
module Rewriting {
  import opened Wrappers
  import opened ByteStrings
  import opened Readers
  import opened HeaderScan
  import opened HeaderEdits
  import opened HeaderText
  import opened HeaderTextExact
  import opened HeaderCache
  import opened HeaderMaps
  import opened EditedHeaders
  import opened EarlyLengths
  import opened Numerals
  import opened RecordHead
  import opened ArchiveFormat
  import opened Records
  import opened Archives

  /** An edit of the status line or of named fields. */
  predicate HeadEdit(op: HeaderOp) {
    op.SetStatus? || op.Set? || op.Append? || op.Remove?
  }

  predicate HeadEdits(ops: seq<HeaderOp>) {
    forall i :: 0 <= i < |ops| ==> HeadEdit(ops[i])
  }

  lemma {:induction false} EditsAreSafe(m: MapState, ops: seq<HeaderOp>)
    requires HeadEdits(ops)
    ensures SafeRun(m, ops)
    decreases |ops|
  {
    hide ApplyOp;
    if ops != [] {
      EditsAreSafe(ApplyOp(m, ops[0]), ops[1..]);
    }
  }

  /** The header map of a record after edits and with its Content-Length made right. */
  function EditedMap(r: ArchiveRecord, ops: seq<HeaderOp>, quirks: bool): (m: MapState)
    requires HeadEdits(ops)
  {
    var m := HeadOf(r, 0, quirks).headers;
    EditsAreSafe(m, ops);
    WithLength(RunOps(m, ops), |r.payload|)
  }

  /** The record that is written: as it was unless something was edited. */
  function Rewritten(r: ArchiveRecord, ops: seq<HeaderOp>, quirks: bool): (w: ArchiveRecord)
    requires HeadEdits(ops)
  {
    var m := EditedMap(r, ops, quirks);
    if m.dirty then ArchiveRecord(StatusText(m.block.status), FieldsText(m.block.headers), r.payload) else r
  }

  function RewrittenAll(rs: seq<ArchiveRecord>, ops: seq<HeaderOp>, quirks: bool): (ws: seq<ArchiveRecord>)
    requires HeadEdits(ops)
    ensures |ws| == |rs|
  {
    if rs == [] then [] else [Rewritten(rs[0], ops, quirks)] + RewrittenAll(rs[1..], ops, quirks)
  }

  /**
   If anything was edited, the status line is still a version line, the fields can
   be written, and the length the reader acts on is that of the payload.
   */
  predicate Rewritable(r: ArchiveRecord, ops: seq<HeaderOp>, quirks: bool)
    requires HeadEdits(ops)
  {
    var m := EditedMap(r, ops, quirks);
    m.dirty ==>
      && GoodVersion(StatusText(m.block.status)) && SafeFields(m.block.headers, quirks)
      && TakeFields(m.block.headers, 0, NO_FIELDS).contentLength == |r.payload|
  }

  // ------------------------------------------------------------------
  // Version lines
  // ------------------------------------------------------------------

  lemma VersionStart(t: bytes)
    requires IsVersionLine(t)
    ensures t != [] && !IsSpace(t[0]) && |t| <= 9
  {
    assert Ascii("WARC/1.1")[0] == 87 && Ascii("WARC/1.0")[0] == 87 && Ascii("WARC/0.")[0] == 87;
  }

  lemma TrimOfVersion(v: bytes)
    requires GoodVersion(v)
    ensures Trim(v) == TrimEnd(v) && Trimmed(Trim(v)) && LF !in Trim(v)
  {
    hide IsVersionLine, TrimEnd;
    VersionStart(TrimEnd(v));
    TrimEndCuts(v);
    var t := TrimEnd(v);
    assert v[|v| - 1] == LF;
    assert forall i :: 0 <= i < |t| ==> t[i] == v[i];
  }

  /** A version line that is written again is one. */
  lemma VersionAgain(v: bytes)
    requires GoodVersion(v)
    ensures GoodVersion(Trim(v) + CRLF) && Trim(Trim(v) + CRLF) == Trim(v)
  {
    hide IsVersionLine, TrimEnd, Trim;
    TrimOfVersion(v);
    VersionStart(TrimEnd(v));
    var t, w := Trim(v), Trim(v) + CRLF;
    TrimTerminated(t);
    TrimEndTerminated(t);
    assert forall i :: 0 <= i < |t| ==> w[i] == t[i];
  }

  lemma TrimEndTerminated(t: bytes)
    requires t != [] && !IsSpace(t[|t| - 1])
    ensures TrimEnd(t + CRLF) == t
  {
    assert (t + CRLF)[..|t| + 1] == t + [CR] && (t + [CR])[..|t|] == t;
    assert TrimEnd(t + CRLF) == TrimEnd(t + [CR]) == TrimEnd(t);
  }

  // ------------------------------------------------------------------
  // The rewritten record
  // ------------------------------------------------------------------

  lemma {:induction false} LengthOfOnly(hs: seq<Header>, hits: nat, f: Fields, v: bytes)
    requires GetAll(hs, CONTENT_LENGTH) == [v] && TakesLength(hs, hits)
    ensures TakeFields(hs, hits, f).contentLength == LengthOf(v)
    decreases |hs|
  {
    hide TypeOf, IsHttpType, LengthOf;
    KeysDiffer();
    var (g, hit) := TakeField(hs[0], f);
    var rest := GetAll(hs[1..], CONTENT_LENGTH);
    if hs[0].key == CONTENT_LENGTH {
      assert [v] == [hs[0].value] + rest;
      assert |rest| == 0 && [v][0] == hs[0].value;
      assert g == f.(contentLength := LengthOf(hs[0].value));
      LengthStays(hs[1..], if hit then hits + 1 else hits, g);
    } else {
      if EqIgnoreCase(hs[0].key, CONTENT_LENGTH) {
        NoLengthNothingTaken(hs[1..], if hit then hits + 1 else hits);
      }
      LengthOfOnly(hs[1..], if hit then hits + 1 else hits, g, v);
    }
  }

  lemma {:induction false} NoLengthNothingTaken(hs: seq<Header>, hits: nat)
    requires TakesLength(hs, hits)
    ensures GetAll(hs, CONTENT_LENGTH) != []
    decreases |hs|
  {
    if hs[0].key != CONTENT_LENGTH {
      NoLengthNothingTaken(hs[1..], if TakeField(hs[0], NO_FIELDS).1 then hits + 1 else hits);
    }
  }

  lemma {:induction false} LengthStays(hs: seq<Header>, hits: nat, f: Fields)
    requires GetAll(hs, CONTENT_LENGTH) == []
    ensures TakeFields(hs, hits, f).contentLength == f.contentLength
    decreases |hs|
  {
    hide TypeOf, IsHttpType, LengthOf;
    if hs != [] && hits != 3 {
      KeysDiffer();
      var (g, hit) := TakeField(hs[0], f);
      LengthStays(hs[1..], if hit then hits + 1 else hits, g);
    }
  }

  /**
   A record made of a written version line and written fields is well-formed and
   has these fields exactly when the one is a version line, the others can be
   written, and the length they announce is right.
   */
  lemma WrittenRecordIsGoodIff(v: bytes, hs: seq<Header>, payload: bytes, quirks: bool)
    ensures var r := ArchiveRecord(v, FieldsText(hs), payload);
            GoodRecord(r, quirks) && BlockScan(r, quirks).state.block.headers == hs <==>
            && GoodVersion(v) && SafeFields(hs, quirks) && TakeFields(hs, 0, NO_FIELDS).contentLength == |payload|
  {
    hide GoodVersion, Scan, FieldsText, TakeFields, SafeFields, Plain;
    var r := ArchiveRecord(v, FieldsText(hs), payload);
    var st := ScanState(Block(Some(Trim(v)), []), false);
    HoldsAll(r.block);
    assert [] + hs == hs;
    if SafeFields(hs, quirks) {
      SafeFieldsScan(st, r.block, 0, hs, quirks);
    } else if BlockScan(r, quirks).state.block.headers == hs {
      NoFieldsPlain(quirks);
      ScanPlain(st, r.block, 0, |r.block|, quirks);
      FieldsExact(st, r.block, 0, hs, quirks);
    }
  }

  lemma NoFieldsPlain(quirks: bool)
    ensures Plain([], quirks)
  {
  }

  lemma LengthBytes()
    ensures CONTENT_LENGTH != [] && Trimmed(CONTENT_LENGTH)
    ensures forall i :: 0 <= i < |CONTENT_LENGTH| ==> !IsSpace(CONTENT_LENGTH[i]) && CONTENT_LENGTH[i] != COLON
  {
  }

  lemma LengthSanitized(n: nat)
    ensures Sanitize(CONTENT_LENGTH, true) == CONTENT_LENGTH && Cleanable(CONTENT_LENGTH)
    ensures Sanitize(Print(n, Dec), false) == Print(n, Dec)
  {
    hide Scrub, Trim, Cleanable;
    LengthBytes();
    CleanableIff(CONTENT_LENGTH);
    SanitizesToItself(CONTENT_LENGTH, true);
    PrintParses(n, Dec);
    SanitizesToItself(Print(n, Dec), false);
  }

  lemma {:induction false} LengthFits(hs: seq<Header>, hits: nat, f: Fields)
    requires f.contentLength <= U64_MAX
    ensures TakeFields(hs, hits, f).contentLength <= U64_MAX
    decreases |hs|
  {
    hide TypeOf, IsHttpType, LengthOf;
    if hs != [] && hits != 3 {
      var (g, hit) := TakeField(hs[0], f);
      LengthFits(hs[1..], if hit then hits + 1 else hits, g);
    }
  }

  /** Only what is dirty has changed. */
  lemma {:induction false} UnchangedUnlessDirty(m: MapState, ops: seq<HeaderOp>)
    requires HeadEdits(ops) && SafeRun(m, ops)
    ensures RunOps(m, ops).raw == m.raw && (m.dirty ==> RunOps(m, ops).dirty)
    ensures !RunOps(m, ops).dirty ==> RunOps(m, ops) == m
    decreases |ops|
  {
    hide Sanitize;
    if ops != [] {
      UnchangedUnlessDirty(ApplyOp(m, ops[0]), ops[1..]);
    }
  }

  lemma {:induction false} FieldEditsKeepStatus(m: MapState, ops: seq<HeaderOp>)
    requires HeadEdits(ops) && SafeRun(m, ops) && forall i :: 0 <= i < |ops| ==> !ops[i].SetStatus?
    ensures RunOps(m, ops).block.status == m.block.status
    decreases |ops|
  {
    hide Sanitize;
    if ops != [] {
      FieldEditsKeepStatus(ApplyOp(m, ops[0]), ops[1..]);
    }
  }

  /** The corrected map announces the length first. */
  lemma WithLengthAnnounces(m: MapState, n: nat, quirks: bool)
    ensures GetFirst(WithLength(m, n).block.headers, CONTENT_LENGTH) == Some(Print(n, Dec))
    ensures WithLength(m, n).block.status == m.block.status && WithLength(m, n).raw == m.raw
    ensures WritableBlock(m.block, quirks) ==> WritableBlock(WithLength(m, n).block, quirks)
  {
    hide Sanitize, Print, GetAll, Overwrite, Cleanable, WritableBlock;
    var text := Print(n, Dec);
    LengthSanitized(n);
    SetThenGet(m.block.headers, CONTENT_LENGTH, text, []);
    GetFirstIsHead(SetField(m.block.headers, CONTENT_LENGTH, text), CONTENT_LENGTH);
    if WritableBlock(m.block, quirks) {
      EditKeepsWritableIff(m, Set(CONTENT_LENGTH, text), quirks);
    }
  }

  lemma HeadIsWritable(r: ArchiveRecord, quirks: bool)
    requires GoodRecord(r, quirks) && SafeFields(BlockScan(r, quirks).state.block.headers, quirks)
    ensures var b := HeadOf(r, 0, quirks).headers.block; WritableBlock(b, quirks) && b.status == Some(Trim(r.version))
    ensures HeadOf(r, 0, quirks).headers.raw == r.version + r.block
    ensures |r.payload| <= U64_MAX
  {
    hide GoodVersion, Scan, SafeFields, TakeFields, Trim;
    ScanPlain(ScanState(Block(Some(Trim(r.version)), []), false), r.block, 0, |r.block|, quirks);
    LengthFits(BlockScan(r, quirks).state.block.headers, 0, NO_FIELDS);
    TrimOfVersion(r.version);
    VersionNotEmpty(r.version);
  }

  lemma VersionNotEmpty(v: bytes)
    requires GoodVersion(v)
    ensures Trim(v) != []
  {
    hide IsVersionLine, TrimEnd, Trim;
    TrimOfVersion(v);
  }

  /** The smallest record with a given payload. */
  function PlainRecord(payload: bytes): (r: ArchiveRecord) {
    ArchiveRecord(Ascii("WARC/1.1") + CRLF, FieldsText([Header(CONTENT_LENGTH, Print(|payload|, Dec))]), payload)
  }

  /** Every payload can be put into a well-formed record. */
  lemma PlainRecordIsGood(payload: bytes, quirks: bool)
    requires |payload| <= U64_MAX
    ensures GoodRecord(PlainRecord(payload), quirks)
  {
    hide GoodVersion, Sanitize, Print, GoodRecord, SafeField, FieldsText, Cleanable, LengthOf;
    var text := Print(|payload|, Dec);
    var h := Header(CONTENT_LENGTH, text);
    LengthSanitized(|payload|);
    EditedFieldIsSafeIff(CONTENT_LENGTH, text, quirks);
    PrintRoundTrip(|payload|, Dec);
    KeysDiffer();
    assert TakeFields([h], 0, NO_FIELDS) == TakeFields([], 1, NO_FIELDS.(contentLength := LengthOf(text)));
    LengthOfPrinted(|payload|);
    PlainVersionIsGood();
    WrittenRecordIsGoodIff(Ascii("WARC/1.1") + CRLF, [h], payload, quirks);
  }

  lemma LengthOfPrinted(n: nat)
    requires n <= U64_MAX
    ensures LengthOf(Print(n, Dec)) == n
  {
    PrintRoundTrip(n, Dec);
  }

  lemma PlainVersionIsGood()
    ensures GoodVersion(Ascii("WARC/1.1") + CRLF)
  {
    var t := Ascii("WARC/1.1");
    TrimEndTerminated(t);
  }

  /** The map that is written keeps the raw block, and is what was read unless it is dirty. */
  lemma EditedMapFacts(r: ArchiveRecord, ops: seq<HeaderOp>, quirks: bool)
    requires HeadEdits(ops)
    ensures var m := EditedMap(r, ops, quirks);
            m.raw == r.version + r.block && (!m.dirty ==> m == HeadOf(r, 0, quirks).headers)
  {
    hide BlockScan, Print, RunOps, SafeRun, GetFirst;
    var m := HeadOf(r, 0, quirks).headers;
    EditsAreSafe(m, ops);
    UnchangedUnlessDirty(m, ops);
  }

  /** The rewritten record is well-formed and has the edited fields exactly when it may be rewritten. */
  lemma RewrittenIsGoodIff(r: ArchiveRecord, ops: seq<HeaderOp>, quirks: bool)
    requires HeadEdits(ops) && GoodRecord(r, quirks)
    ensures var w, m := Rewritten(r, ops, quirks), EditedMap(r, ops, quirks);
            GoodRecord(w, quirks) && BlockScan(w, quirks).state.block.headers == m.block.headers <==>
            Rewritable(r, ops, quirks)
  {
    hide GoodRecord, EditedMap, BlockScan, SafeFields, TakeFields, FieldsText, StatusText, GoodVersion;
    var m := EditedMap(r, ops, quirks);
    EditedMapFacts(r, ops, quirks);
    WrittenRecordIsGoodIff(StatusText(m.block.status), m.block.headers, r.payload, quirks);
  }

  /** What the edited record writes, with any payload, is the rewritten record with that payload. */
  lemma RewrittenText(r: ArchiveRecord, ops: seq<HeaderOp>, body: bytes, quirks: bool)
    requires HeadEdits(ops) && GoodRecord(r, quirks)
    ensures OutputOf(EditedMap(r, ops, quirks)) + body + RECORD_END ==
            RecordText(Rewritten(r, ops, quirks).(payload := body))
  {
    hide GoodRecord, EditedMap, FieldsText, StatusText;
    EditedMapFacts(r, ops, quirks);
    VersionIsGood(r, quirks);
    var m := EditedMap(r, ops, quirks);
    if !m.dirty {
      assert |m.raw| >= |r.version| > 0;
    }
  }

  lemma VersionIsGood(r: ArchiveRecord, quirks: bool)
    requires GoodRecord(r, quirks)
    ensures GoodVersion(r.version) && |r.version| > 0
  {
  }

  /**
   What is asked of record and edits is little: fields that can be written, a
   length in front of the third field the reader counts, and edits of fields that
   leave it alone or set it.
   */
  lemma EarlyLengthIsRewritable(r: ArchiveRecord, ops: seq<HeaderOp>, quirks: bool)
    requires GoodRecord(r, quirks) && HeadEdits(ops)
    requires forall i :: 0 <= i < |ops| ==> !ops[i].SetStatus? && GoodEdit(ops[i]) && LeavesLength(ops[i])
    requires var hs := BlockScan(r, quirks).state.block.headers; SafeFields(hs, quirks) && EarlyLength(hs, 3)
    ensures Rewritable(r, ops, quirks)
  {
    hide GoodRecord, GoodEdit, LeavesLength, EarlyLength, BlockScan, RunOps, SafeRun, SafeFields, SafeStatus, Print, ApplyOp,
      TakesLength, TakeFields, GetAll, GetFirst, Sanitize, WithLength, GoodVersion, Trim;
    var m := HeadOf(r, 0, quirks).headers;
    EditsAreSafe(m, ops);
    FieldEditsKeepStatus(m, ops);
    HeadIsWritable(r, quirks);
    EditsKeepWritable(m, ops, quirks);
    WithLengthAnnounces(RunOps(m, ops), |r.payload|, quirks);
    EarlyAfterRun(m, ops, 3);
    EarlyWithLength(RunOps(m, ops), |r.payload|);
    VersionIsGood(r, quirks);
    VersionAgain(r.version);
    VersionNotEmpty(r.version);
  }

  /** With the length made right, it is the one the reader acts on. */
  lemma EarlyWithLength(m: MapState, n: nat)
    requires EarlyLength(m.block.headers, 3) && n <= U64_MAX
    ensures TakeFields(WithLength(m, n).block.headers, 0, NO_FIELDS).contentLength == n
  {
    hide LeavesLength, EarlyLength, Print, ApplyOp, TakesLength, TakeFields, GetAll, GetFirst, Sanitize;
    var text := Print(n, Dec);
    LengthIsLeft(n);
    EarlyAfter(m, Set(CONTENT_LENGTH, text), 3);
    var hs := WithLength(m, n).block.headers;
    EarlyIsTaken(hs, 0, 3);
    WithLengthAnnounces(m, n, false);
    GetFirstIsHead(hs, CONTENT_LENGTH);
    assert GetAll(hs, CONTENT_LENGTH) == [text];
    LengthOfOnly(hs, 0, NO_FIELDS, text);
    LengthOfPrinted(n);
  }

  lemma LengthIsLeft(n: nat)
    ensures LeavesLength(Set(CONTENT_LENGTH, Print(n, Dec)))
  {
    hide Cleanable, Sanitize;
    LengthSanitized(n);
  }

  // ------------------------------------------------------------------
  // A payload that was read in part
  // ------------------------------------------------------------------

  /** The record that is written after `n` bytes of the payload were read. */
  function PartlyWritten(r: ArchiveRecord, ops: seq<HeaderOp>, n: nat, chunkSize: nat, quirks: bool): (w: ArchiveRecord)
    requires HeadEdits(ops)
  {
    Rewritten(r, ops, quirks).(payload := if chunkSize == 0 then [] else r.payload[Min(n, |r.payload|)..])
  }

  /** Its length is still that of the whole payload: it is well-formed only if nothing is missing. */
  lemma PartIsGoodIff(r: ArchiveRecord, ops: seq<HeaderOp>, n: nat, chunkSize: nat, quirks: bool)
    requires HeadEdits(ops) && GoodRecord(r, quirks) && Rewritable(r, ops, quirks)
    ensures GoodRecord(PartlyWritten(r, ops, n, chunkSize, quirks), quirks) <==>
            r.payload == [] || (n == 0 && chunkSize > 0)
  {
    hide Rewritable, Rewritten, EditedMap;
    RewrittenIsGoodIff(r, ops, quirks);
    SamePayload(r, ops, quirks);
    var w, part := Rewritten(r, ops, quirks), PartlyWritten(r, ops, n, chunkSize, quirks);
    PayloadMustFit(w, part, quirks);
  }

  lemma SamePayload(r: ArchiveRecord, ops: seq<HeaderOp>, quirks: bool)
    requires HeadEdits(ops)
    ensures Rewritten(r, ops, quirks).payload == r.payload
  {
    hide EditedMap;
  }

  lemma NothingMissing(r: ArchiveRecord, ops: seq<HeaderOp>, chunkSize: nat, quirks: bool)
    requires HeadEdits(ops) && chunkSize > 0
    ensures PartlyWritten(r, ops, 0, chunkSize, quirks) == Rewritten(r, ops, quirks)
  {
    hide Rewritten;
    SamePayload(r, ops, quirks);
    assert r.payload[0..] == r.payload;
  }

  lemma PayloadMustFit(w: ArchiveRecord, part: ArchiveRecord, quirks: bool)
    requires GoodRecord(w, quirks) && part == w.(payload := part.payload)
    ensures GoodRecord(part, quirks) <==> |part.payload| == |w.payload|
  {
    hide Scan, GoodVersion, TakeFields;
  }

  // ------------------------------------------------------------------
  // The copy
  // ------------------------------------------------------------------

  predicate RewritableAll(rs: seq<ArchiveRecord>, ops: seq<HeaderOp>, quirks: bool)
    requires HeadEdits(ops)
  {
    forall i :: 0 <= i < |rs| ==> Rewritable(rs[i], ops, quirks)
  }

  /** The copy of a well-formed archive is well-formed and has the same payloads. */
  lemma {:induction false} CopyIsGood(rs: seq<ArchiveRecord>, ops: seq<HeaderOp>, quirks: bool)
    requires HeadEdits(ops) && GoodArchive(rs, quirks) && RewritableAll(rs, ops, quirks)
    ensures GoodArchive(RewrittenAll(rs, ops, quirks), quirks) && PayloadsOf(RewrittenAll(rs, ops, quirks)) == PayloadsOf(rs)
  {
    hide GoodRecord, Rewritable, Rewritten, HeadEdits;
    if rs != [] {
      RewrittenIsGoodIff(rs[0], ops, quirks);
      SamePayload(rs[0], ops, quirks);
      CopyIsGood(rs[1..], ops, quirks);
      var w, ws := Rewritten(rs[0], ops, quirks), RewrittenAll(rs[1..], ops, quirks);
      assert ([w] + ws)[1..] == ws;
    }
  }

  /** Applies edits to a header map, one after the other. */
  method EditHeaders(headers: HeaderMap, ops: seq<HeaderOp>)
    requires headers.Valid() && HeadEdits(ops)
    modifies headers
    ensures headers.Valid() && SafeRun(old(headers.Abs()), ops) && headers.Abs() == RunOps(old(headers.Abs()), ops)
  {
    hide GoodEdit, ApplyOp, HeaderMap.Abs, HeaderMap.Content, HeaderMap.Valid;
    EditsAreSafe(headers.Abs(), ops);
    assert ops[0..] == ops;
    for i := 0 to |ops|
      invariant headers.Valid() && SafeRun(headers.Abs(), ops[i..])
      invariant RunOps(headers.Abs(), ops[i..]) == RunOps(old(headers.Abs()), ops)
    {
      assert ops[i..][0] == ops[i] && ops[i..][1..] == ops[i + 1..];
      if ops[i].SetStatus? {
        headers.SetStatusLineBytes(ops[i].status);
      } else if ops[i].Set? {
        headers.SetBytes(ops[i].key, ops[i].value);
      } else if ops[i].Append? {
        headers.AppendBytes(ops[i].key, ops[i].value);
      } else {
        headers.RemoveBytes(ops[i].key);
      }
    }
    assert ops[|ops|..] == [];
  }

  /** Editing its headers leaves the rest of a record alone. */
  method EditRecord(rec: WarcRecord, ops: seq<HeaderOp>, ghost e: nat)
    requires rec.Valid() && rec.Anchored(e) && HeadEdits(ops)
    modifies rec.headers
    ensures rec.Valid() && rec.Anchored(e) && rec.Unread(1) == old(rec.Unread(1)) && rec.HttpOutput() == old(rec.HttpOutput())
    ensures SafeRun(old(rec.headers.Abs()), ops) && rec.headers.Abs() == RunOps(old(rec.headers.Abs()), ops)
  {
    hide HeaderMap.Abs, HeaderMap.Content, HeaderMap.Valid, RunOps, SafeRun, HeadEdits, TrackedReader.Valid, Text;
    EditHeaders(rec.headers, ops);
  }

  /** Reads up to `n` bytes of the payload. */
  method ReadPart(rec: WarcRecord, n: nat, ghost e: nat)
    requires rec.Valid() && rec.Anchored(e)
    modifies rec.PayloadFrame()
    ensures rec.Valid() && rec.Anchored(e) && rec.HttpOutput() == old(rec.HttpOutput())
    ensures rec.headers.Abs() == old(rec.headers.Abs())
    ensures rec.Unread(1) == old(rec.Unread(1))[Min(n, |old(rec.Unread(1))|)..]
  {
    hide HeaderMap.Abs, HeaderMap.Content, HeaderMap.Valid, Text;
    var p := rec.PayloadReader();
    ghost var start, end := p.inner.pos, p.End();
    var skipped := rec.ConsumeN(n);
    TextDrop(p.inner.data, start, end, Min(n, end - start));
  }

  /** Reads `n` bytes of a record that has just been read, and edits its headers. */
  method ReadAndEdit(rec: WarcRecord, stream: TrackedReader, ops: seq<HeaderOp>, n: nat,
                     ghost rs: seq<ArchiveRecord>, ghost p: nat, ghost quirks: bool)
    requires rec.Valid() && AtRecord(rec, stream, rs, p, quirks) && HeadEdits(ops) && GoodArchive(rs, quirks)
    modifies rec.Repr()
    ensures rec.Valid() && rec.Repr() <= old(rec.Repr()) && rec.Anchored(PayloadEnd(rs[0], p)) && rec.Stream() == stream
    ensures !rec.reader.Detached? && rec.contentLength == |rs[0].payload| && rec.HttpOutput() == []
    ensures rec.Unread(1) == rs[0].payload[Min(n, |rs[0].payload|)..]
    ensures var m := HeadOf(rs[0], 0, quirks).headers; SafeRun(m, ops) && rec.headers.Abs() == RunOps(m, ops)
  {
    hide GoodRecord, HeadEdits, AtRecord, GoodArchive, HeaderMap.Abs, HeaderMap.Content, HeaderMap.Valid, RunOps, SafeRun,
      HeadOf, WarcRecord.Anchored, TrackedReader.Valid, WarcRecord.HttpOutput, WarcRecord.Unread;
    RecordFacts(rec, stream, rs, p, quirks);
    RecordOffers(rec, stream, rs, p, quirks);
    ReadPart(rec, n, PayloadEnd(rs[0], p));
    EditRecord(rec, ops, PayloadEnd(rs[0], p));
  }

  /** Reads `n` bytes of a record that has just been read, edits it, and writes it behind `out`. */
  method RewriteRecord(rec: WarcRecord, stream: TrackedReader, ops: seq<HeaderOp>, out: bytes, n: nat, chunkSize: nat,
                       ghost rs: seq<ArchiveRecord>, ghost p: nat, ghost quirks: bool)
    returns (written: bytes)
    requires rec.Valid() && AtRecord(rec, stream, rs, p, quirks) && HeadEdits(ops) && GoodArchive(rs, quirks)
    modifies rec.Repr()
    ensures rec.Valid() && rec.Repr() <= old(rec.Repr()) && rec.Anchored(PayloadEnd(rs[0], p)) && rec.Stream() == stream
    ensures written == out + RecordText(PartlyWritten(rs[0], ops, n, chunkSize, quirks))
    ensures Holds(stream.data, PayloadEnd(rs[0], p), RECORD_END + ArchiveText(rs[1..]))
  {
    hide GoodRecord, Holds, ArchiveText, RecordText, Rewritten, OutputOf, HeadEdits, AtRecord, GoodArchive, Print,
      HeaderMap.Abs, HeaderMap.Content, HeaderMap.Valid, RunOps, WithLength, HeadOf, WarcRecord.Anchored, TrackedReader.Valid,
      WarcRecord.Unread, WarcRecord.HttpOutput, WarcRecord.Valid, LimitedReader.Valid, Text;
    RecordFacts(rec, stream, rs, p, quirks);
    ReadAndEdit(rec, stream, ops, n, rs, p, quirks);
    rec.UnreadInBlocks(chunkSize);
    RewrittenText(rs[0], ops, rec.Unread(chunkSize), quirks);
    var result, count := rec.Write(out, chunkSize);
    written := result.value;
  }

  lemma RecordOffers(rec: WarcRecord, stream: TrackedReader, rs: seq<ArchiveRecord>, p: nat, quirks: bool)
    requires rec.Valid() && AtRecord(rec, stream, rs, p, quirks) && GoodArchive(rs, quirks)
    ensures rec.reader.Original? && rec.Stream() == stream && rec.Anchored(PayloadEnd(rs[0], p))
    ensures rec.Unread(1) == rs[0].payload
  {
    hide AtRecord, GoodArchive, WarcRecord.Anchored, HeaderMap.Content, HeaderMap.Valid, HeaderMap.Abs, Text;
    FreshPayload(rec, stream, rs, p, quirks);
    AtRecordIsAnchored(rec, stream, rs, p, quirks);
  }

  lemma RecordFacts(rec: WarcRecord, stream: TrackedReader, rs: seq<ArchiveRecord>, p: nat, quirks: bool)
    requires rec.Valid() && AtRecord(rec, stream, rs, p, quirks) && GoodArchive(rs, quirks)
    ensures rs != [] && GoodRecord(rs[0], quirks) && Holds(stream.data, PayloadEnd(rs[0], p), RECORD_END + ArchiveText(rs[1..]))
    ensures rec.headers.Abs() == HeadOf(rs[0], 0, quirks).headers
    ensures rec.contentLength == |rs[0].payload| && rec.HttpOutput() == [] && !rec.reader.Detached?
  {
    hide BlockScan, ArchiveText, GoodVersion, HeaderMap.Abs, HeaderMap.Content, HeaderMap.Valid, TakeFields;
  }

  /** Edits a record that has just been read, writes it behind `out`, and moves on. */
  method RewriteAndAdvance(rec: WarcRecord, stream: TrackedReader, ops: seq<HeaderOp>, out: bytes, chunkSize: nat,
                           maxHeaderLen: nat, ghost rs: seq<ArchiveRecord>, ghost p: nat, ghost quirks: bool)
    returns (written: bytes, r: Next)
    requires rs != [] && Ready(Record(rec), stream, rs, p, quirks) && chunkSize > 0 && HeadEdits(ops)
    requires GoodArchive(rs, quirks) && HeadsFit(rs, maxHeaderLen)
    modifies rec.Repr()
    ensures written == out + RecordText(Rewritten(rs[0], ops, quirks))
    ensures fresh(Owned(r, stream)) && Ready(r, stream, rs[1..], p + |RecordText(rs[0])|, quirks)
  {
    hide GoodRecord, HeadAt, Holds, HeadTooLong, ArchiveText, RecordText, Rewritable, Rewritten, OutputOf,
      HeadEdits, AtRecord, PartlyWritten, WarcRecord.Anchored,
      HeaderMap.Abs, HeaderMap.Content, HeaderMap.Valid, RunOps, WithLength, HeadOf, HeadFits, EditedMap;
    AtRecordMode(rec, stream, rs, p, quirks);
    NothingMissing(rs[0], ops, chunkSize, quirks);
    written := RewriteRecord(rec, stream, ops, out, 0, chunkSize, rs, p, quirks);
    r := Advance(rec, stream, maxHeaderLen, rs, p);
  }

  /** Copies an archive, every record with edited headers. */
  method CopyArchive(stream: TrackedReader, quirks: bool, ops: seq<HeaderOp>, chunkSize: nat, maxHeaderLen: nat,
                     ghost rs: seq<ArchiveRecord>)
    returns (out: bytes)
    requires stream.Valid() && stream.pos == 0 && stream.data == ArchiveText(rs) && chunkSize > 0 && HeadEdits(ops)
    requires GoodArchive(rs, quirks) && HeadsFit(rs, maxHeaderLen)
    modifies stream
    ensures out == ArchiveText(RewrittenAll(rs, ops, quirks))
  {
    hide GoodRecord, HeadFits, RecordText, AtRecord, HeadOf, WarcRecord.Repr, WarcRecord.Valid, Rewritable,
      Rewritten, HeadEdits;
    var r := Begin(stream, quirks, maxHeaderLen, rs);
    out := [];
    ghost var todo, p: nat := rs, 0;
    while r.Record?
      invariant GoodArchive(todo, quirks) && HeadsFit(todo, maxHeaderLen)
      invariant fresh(Owned(r, stream)) && Ready(r, stream, todo, p, quirks)
      invariant out + ArchiveText(RewrittenAll(todo, ops, quirks)) == ArchiveText(RewrittenAll(rs, ops, quirks))
      decreases |todo|
    {
      assert r.record.Repr() <= {stream} + Owned(r, stream);
      CopySplits(out, todo, ops, quirks);
      out, r := RewriteAndAdvance(r.record, stream, ops, out, chunkSize, maxHeaderLen, todo, p, quirks);
      p := p + |RecordText(todo[0])|;
      todo := todo[1..];
    }
    assert out + ArchiveText(RewrittenAll([], ops, quirks)) == out;
  }

  lemma CopySplits(out: bytes, rs: seq<ArchiveRecord>, ops: seq<HeaderOp>, quirks: bool)
    requires HeadEdits(ops) && rs != []
    ensures out + ArchiveText(RewrittenAll(rs, ops, quirks)) ==
            out + RecordText(Rewritten(rs[0], ops, quirks)) + ArchiveText(RewrittenAll(rs[1..], ops, quirks))
  {
    hide Rewritten, RecordText, HeadEdits, ArchiveText;
    TextOfMore(Rewritten(rs[0], ops, quirks), RewrittenAll(rs[1..], ops, quirks), out);
  }

  lemma TextOfMore(w: ArchiveRecord, ws: seq<ArchiveRecord>, out: bytes)
    ensures out + ArchiveText([w] + ws) == out + RecordText(w) + ArchiveText(ws)
  {
    hide RecordText;
    assert ([w] + ws)[1..] == ws;
  }

  /** Copies an archive with edited headers and reads the copy: the payloads are those of the original. */
  method CopyThenRead(stream: TrackedReader, quirks: bool, ops: seq<HeaderOp>, chunkSize: nat, maxHeaderLen: nat,
                      ghost rs: seq<ArchiveRecord>)
    returns (out: bytes, payloads: seq<bytes>)
    requires stream.Valid() && stream.pos == 0 && stream.data == ArchiveText(rs) && chunkSize > 0 && HeadEdits(ops)
    requires GoodArchive(rs, quirks) && HeadsFit(rs, maxHeaderLen) && RewritableAll(rs, ops, quirks)
    requires HeadsFit(RewrittenAll(rs, ops, quirks), maxHeaderLen)
    modifies stream
    ensures out == ArchiveText(RewrittenAll(rs, ops, quirks)) && GoodArchive(RewrittenAll(rs, ops, quirks), quirks)
    ensures |out| <= I64_MAX ==> payloads == PayloadsOf(rs)
  {
    hide GoodRecord, HeadFits, RecordText, ArchiveText, GoodArchive, HeadsFit, RewritableAll, HeadEdits;
    out := CopyArchive(stream, quirks, ops, chunkSize, maxHeaderLen, rs);
    CopyIsGood(rs, ops, quirks);
    payloads := [];
    if |out| <= I64_MAX {
      var copy := new TrackedReader(out);
      payloads := ReadPayloads(copy, quirks, maxHeaderLen, RewrittenAll(rs, ops, quirks));
    }
  }


  /** The smallest record of one byte, as it is written. */
  lemma OneByteRecord()
    ensures RecordText(PlainRecord([120])) ==
            Ascii("WARC/1.1") + CRLF + (Ascii("Content-Length: 1") + CRLF + CRLF) + [120] + (CRLF + CRLF)
  {
    var h := Header(CONTENT_LENGTH, Ascii("1"));
    assert Print(1, Dec) == Ascii("1");
    assert FieldBody(h) == Ascii("Content-Length: 1");
    assert [h][1..] == [] && FieldsText([]) == CRLF;
    assert RECORD_END == CRLF + CRLF;
  }
}

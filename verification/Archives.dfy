/**
 Iterating an archive (fastwarc-rs/src/warc/record.rs, iter.rs): whatever is done
 with the payload of each record, exactly the records of the archive are seen, in
 order and at their start offsets.
 */
module Archives {
  import opened Wrappers
  import opened ByteStrings
  import opened Readers
  import opened HeaderScan
  import opened HeaderCache
  import opened HeaderText
  import opened HeaderMaps
  import opened RecordHead
  import opened ArchiveFormat
  import opened Records

  /** Something a caller does with a record before asking for the next one. */
  datatype Step =
    | Payload(use: Use)
    | Skip(n: nat)
    | BakeIn
    | Http(maxHeaderLen: nat, quirks: bool)

  /** What an iteration reports of a record. */
  datatype Seen = Seen(streamPos: nat, fields: Fields, headerBlock: bytes)

  function SeenOf(h: Head): Seen {
    Seen(h.start, h.fields, h.headers.raw)
  }

  /**
   One step. HTTP headers are parsed only when nothing of the payload has been
   read; everything else is done unconditionally.
   */
  method TakeStep(rec: WarcRecord, step: Step, ghost e: nat)
    requires rec.Valid() && rec.Anchored(e)
    modifies rec.Repr()
    ensures rec.Valid() && rec.Anchored(e) && rec.Stream() == old(rec.Stream())
    ensures fresh(rec.Repr() - old(rec.Repr()))
    ensures !step.BakeIn? ==> rec.reader == old(rec.reader)
    ensures step.BakeIn? ==> rec.reader.Frozen?
  {
    match step
    case Payload(use) =>
      var r := rec.UsePayload(use);
    case Skip(n) =>
      var r := rec.ConsumeN(n);
    case BakeIn =>
      var r := rec.Freeze();
    case Http(max, quirks) =>
      if rec.PayloadReader().pos == 0 {
        if !rec.httpParsed {
          rec.AnchoredLength(e);
        }
        var r := rec.ParseHttp(max, quirks);
      }
  }

  /** The record is not frozen. */
  predicate KeepsStream(steps: seq<Step>) {
    forall i :: 0 <= i < |steps| ==> !steps[i].BakeIn?
  }

  method TakeSteps(rec: WarcRecord, steps: seq<Step>, ghost e: nat)
    requires rec.Valid() && rec.Anchored(e)
    modifies rec.Repr()
    ensures rec.Valid() && rec.Anchored(e) && rec.Stream() == old(rec.Stream())
    ensures fresh(rec.Repr() - old(rec.Repr()))
    ensures KeepsStream(steps) ==> rec.reader == old(rec.reader)
    ensures rec.reader.Frozen? <==> old(rec.reader.Frozen?) || !KeepsStream(steps)
  {
    for i := 0 to |steps|
      invariant rec.Valid() && rec.Anchored(e) && rec.Stream() == old(rec.Stream())
      invariant fresh(rec.Repr() - old(rec.Repr()))
      invariant KeepsStream(steps[..i]) ==> rec.reader == old(rec.reader)
      invariant rec.reader.Frozen? <==> old(rec.reader.Frozen?) || !KeepsStream(steps[..i])
    {
      KeepsOneMore(steps, i);
      TakeStep(rec, steps[i], e);
    }
    assert steps[..|steps|] == steps;
  }

  lemma KeepsOneMore(steps: seq<Step>, i: nat)
    requires i < |steps|
    ensures KeepsStream(steps[..i + 1]) <==> KeepsStream(steps[..i]) && !steps[i].BakeIn?
  {
    assert steps[..i + 1] == steps[..i] + [steps[i]];
    assert forall j :: 0 <= j < i ==> steps[..i][j] == steps[..i + 1][j];
  }

  function SeenOfAll(hs: seq<Head>): (r: seq<Seen>)
    ensures |r| == |hs| && forall i :: 0 <= i < |hs| ==> r[i] == SeenOf(hs[i])
  {
    seq(|hs|, i requires 0 <= i < |hs| => SeenOf(hs[i]))
  }

  /** What an iteration of `rs`, the first record starting at `p`, has to report. */
  function Report(rs: seq<ArchiveRecord>, p: nat, quirks: bool): (r: seq<Seen>) {
    SeenOfAll(HeadsOf(rs, p, quirks))
  }

  lemma ReportSplits(seen: seq<Seen>, rs: seq<ArchiveRecord>, p: nat, quirks: bool)
    requires rs != []
    ensures seen + Report(rs, p, quirks) ==
            seen + [SeenOf(HeadOf(rs[0], p, quirks))] + Report(rs[1..], p + |RecordText(rs[0])|, quirks)
  {
    hide HeadOf, RecordText;
  }

  /** The record at hand is the first of `rs`, and the rest of the archive follows its payload. */
  ghost predicate AtRecord(rec: WarcRecord, stream: TrackedReader, rs: seq<ArchiveRecord>, p: nat, quirks: bool)
    requires rec.Valid()
    reads rec, rec.Repr()
  {
    && rs != []
    && rec.IsFresh(HeadOf(rs[0], p, quirks), stream, quirks)
    && BodyAt(stream.data, p, rs)
  }

  lemma AtRecordIsAnchored(rec: WarcRecord, stream: TrackedReader, rs: seq<ArchiveRecord>, p: nat, quirks: bool)
    requires rec.Valid() && GoodArchive(rs, quirks) && AtRecord(rec, stream, rs, p, quirks)
    ensures rec.Anchored(PayloadEnd(rs[0], p))
  {
    hide HeadOf, FieldsOf, BlockScan, GoodVersion, ArchiveText;
    HeadBody(rs[0], p, quirks);
  }

  /** What the next record is, when the current one is anchored in a good archive. */
  method Advance(rec: WarcRecord, stream: TrackedReader, maxHeaderLen: nat,
                 ghost rs: seq<ArchiveRecord>, ghost p: nat)
    returns (r: Next)
    requires rs != [] && rec.Valid() && rec.Anchored(PayloadEnd(rs[0], p)) && rec.Stream() == stream
    requires Holds(stream.data, PayloadEnd(rs[0], p), RECORD_END + ArchiveText(rs[1..]))
    requires GoodArchive(rs[1..], rec.quirksMode) && HeadsFit(rs[1..], maxHeaderLen)
    modifies rec.Repr()
    ensures if rs[1..] == [] then r == NoMore
            else
              && r.Record? && fresh(r.record) && r.record.Valid() && fresh(r.record.Repr() - {stream})
              && AtRecord(r.record, stream, rs[1..], p + |RecordText(rs[0])|, rec.quirksMode)
  {
    hide HeadOf, GoodRecord, HeadAt, Holds, HeadTooLong, ArchiveText, RecordText;
    ArchiveNext(stream.data, p, rs, rec.quirksMode, maxHeaderLen);
    rec.AnchoredNext(PayloadEnd(rs[0], p));
    r := NextRecord(rec, maxHeaderLen);
  }

  /** What was asked for last is the first record of `rs`, if there is one. */
  ghost predicate Ready(r: Next, stream: TrackedReader, rs: seq<ArchiveRecord>, p: nat, quirks: bool)
    reads if r.Record? then {r.record} + r.record.Repr() else {}
  {
    if rs == [] then r == NoMore
    else r.Record? && r.record.Valid() && AtRecord(r.record, stream, rs, p, quirks)
  }

  /** The objects a record owns besides the shared stream. */
  ghost function Owned(r: Next, stream: TrackedReader): set<object>
    reads if r.Record? then {r.record} else {}
  {
    if r.Record? then r.record.Repr() - {stream} else {}
  }

  function SeenBy(rec: WarcRecord, ghost stream: TrackedReader,
                  ghost rs: seq<ArchiveRecord>, ghost p: nat, ghost quirks: bool): (r: Seen)
    requires rec.Valid() && AtRecord(rec, stream, rs, p, quirks)
    reads rec, rec.Repr()
    ensures r == SeenOf(HeadOf(rs[0], p, quirks))
  {
    Seen(rec.streamPos, rec.Given(), rec.headers.raw)
  }

  /** Looks at a record, does with it whatever is planned, and moves on. */
  method Visit(rec: WarcRecord, stream: TrackedReader, steps: seq<Step>, maxHeaderLen: nat,
               ghost rs: seq<ArchiveRecord>, ghost p: nat)
    returns (sight: Seen, r: Next)
    requires rs != [] && Ready(Record(rec), stream, rs, p, rec.quirksMode)
    requires GoodArchive(rs, rec.quirksMode) && HeadsFit(rs, maxHeaderLen)
    modifies rec.Repr()
    ensures sight == SeenOf(HeadOf(rs[0], p, rec.quirksMode))
    ensures fresh(Owned(r, stream)) && Ready(r, stream, rs[1..], p + |RecordText(rs[0])|, rec.quirksMode)
  {
    hide HeadOf, GoodRecord, HeadAt, Holds, HeadTooLong, ArchiveText, RecordText;
    sight := SeenBy(rec, stream, rs, p, rec.quirksMode);
    AtRecordIsAnchored(rec, stream, rs, p, rec.quirksMode);
    TakeSteps(rec, steps, PayloadEnd(rs[0], p));
    r := Advance(rec, stream, maxHeaderLen, rs, p);
  }

  /** The first record of an archive. */
  method Begin(stream: TrackedReader, quirks: bool, maxHeaderLen: nat, ghost rs: seq<ArchiveRecord>) returns (r: Next)
    requires stream.Valid() && stream.pos == 0 && stream.data == ArchiveText(rs)
    requires GoodArchive(rs, quirks) && HeadsFit(rs, maxHeaderLen)
    modifies stream
    ensures fresh(Owned(r, stream)) && Ready(r, stream, rs, 0, quirks)
  {
    hide HeadOf, GoodRecord, HeadAt, Holds, HeadTooLong, ArchiveText, RecordText;
    HoldsAll(stream.data);
    ArchiveHead(stream.data, 0, rs, quirks, maxHeaderLen);
    r := FromReader(stream, quirks, maxHeaderLen);
  }

  /**
   Iterates a well-formed archive. `plan` tells what is done with each record
   before moving on. Exactly the records of the archive are seen.
   */
  method Iterate(stream: TrackedReader, quirks: bool, maxHeaderLen: nat, plan: seq<seq<Step>>,
                 ghost rs: seq<ArchiveRecord>)
    returns (seen: seq<Seen>, failed: bool)
    requires stream.Valid() && stream.pos == 0 && stream.data == ArchiveText(rs)
    requires GoodArchive(rs, quirks) && HeadsFit(rs, maxHeaderLen)
    modifies stream
    ensures !failed && seen == Report(rs, 0, quirks)
  {
    hide GoodRecord, HeadFits, RecordText, Report, AtRecord, ArchiveText, HeadOf, SeenOf, WarcRecord.Repr,
      WarcRecord.Valid;
    var r := Begin(stream, quirks, maxHeaderLen, rs);
    seen := [];
    ghost var todo, p: nat := rs, 0;
    var i := 0;
    while r.Record?
      invariant GoodArchive(todo, quirks) && HeadsFit(todo, maxHeaderLen)
      invariant fresh(Owned(r, stream)) && Ready(r, stream, todo, p, quirks)
      invariant seen + Report(todo, p, quirks) == Report(rs, 0, quirks)
      decreases |todo|
    {
      assert r.record.quirksMode == quirks by { AtRecordMode(r.record, stream, todo, p, quirks); }
      ReportSplits(seen, todo, p, quirks);
      assert r.record.Repr() <= {stream} + Owned(r, stream);
      var sight;
      sight, r := Visit(r.record, stream, if i < |plan| then plan[i] else [], maxHeaderLen, todo, p);
      seen := seen + [sight];
      p := p + |RecordText(todo[0])|;
      todo := todo[1..];
      i := i + 1;
    }
    failed := r.Failed?;
    NothingToReport(p, quirks);
  }

  lemma AtRecordMode(rec: WarcRecord, stream: TrackedReader, rs: seq<ArchiveRecord>, p: nat, quirks: bool)
    requires rec.Valid() && AtRecord(rec, stream, rs, p, quirks)
    ensures rec.quirksMode == quirks
  {
  }

  lemma NothingToReport(p: nat, quirks: bool)
    ensures Report([], p, quirks) == []
  {
  }

  /** What a record has to offer before it is used is its payload. */
  lemma FreshPayload(rec: WarcRecord, stream: TrackedReader, rs: seq<ArchiveRecord>, p: nat, quirks: bool)
    requires rec.Valid() && GoodArchive(rs, quirks) && AtRecord(rec, stream, rs, p, quirks)
    ensures rec.reader.Original? && rec.Stream() == stream
    ensures var r := rec.reader.reader; Text(r.inner.data, r.inner.pos, r.End()) == rs[0].payload
  {
    hide HeadOf, FieldsOf, BlockScan, GoodVersion, ArchiveText, HeaderMap.Abs, HeaderMap.Content, HeaderMap.Valid;
    HeadBody(rs[0], p, quirks);
    BodyEnds(stream.data, p, rs);
  }

  lemma BodyEnds(s: bytes, p: nat, rs: seq<ArchiveRecord>)
    requires rs != [] && BodyAt(s, p, rs)
    ensures PayloadEnd(rs[0], p) <= |s| && Text(s, PayloadStart(rs[0], p), PayloadEnd(rs[0], p)) == rs[0].payload
  {
    hide ArchiveText;
  }

  function PayloadsOf(rs: seq<ArchiveRecord>): (r: seq<bytes>) {
    if rs == [] then [] else [rs[0].payload] + PayloadsOf(rs[1..])
  }

  /** Reading every record to its end yields the payloads of the archive. */
  method ReadPayloads(stream: TrackedReader, quirks: bool, maxHeaderLen: nat, ghost rs: seq<ArchiveRecord>)
    returns (payloads: seq<bytes>)
    requires stream.Valid() && stream.pos == 0 && stream.data == ArchiveText(rs)
    requires GoodArchive(rs, quirks) && HeadsFit(rs, maxHeaderLen)
    modifies stream
    ensures payloads == PayloadsOf(rs)
  {
    hide GoodRecord, HeadFits, RecordText, AtRecord, ArchiveText, HeadOf, WarcRecord.Repr, WarcRecord.Valid;
    var r := Begin(stream, quirks, maxHeaderLen, rs);
    payloads := [];
    ghost var todo, p: nat := rs, 0;
    while r.Record?
      invariant GoodArchive(todo, quirks) && HeadsFit(todo, maxHeaderLen)
      invariant fresh(Owned(r, stream)) && Ready(r, stream, todo, p, quirks)
      invariant payloads + PayloadsOf(todo) == PayloadsOf(rs)
      decreases |todo|
    {
      assert r.record.Repr() <= {stream} + Owned(r, stream);
      AtRecordMode(r.record, stream, todo, p, quirks);
      var payload;
      payload, r := ReadAndAdvance(r.record, stream, maxHeaderLen, todo, p);
      payloads := payloads + [payload];
      p := p + |RecordText(todo[0])|;
      todo := todo[1..];
    }
  }

  /** Reads what is left of the payload. */
  method ReadAll(rec: WarcRecord, ghost e: nat) returns (payload: bytes)
    requires rec.Valid() && rec.Anchored(e)
    modifies rec.PayloadFrame()
    ensures rec.Valid() && rec.Anchored(e)
    ensures var p := rec.PayloadReader(); payload == old(Text(p.inner.data, p.inner.pos, p.End()))
  {
    hide HeaderMap.Content, HeaderMap.Valid, HeaderMap.Abs, Text;
    payload := rec.PayloadReader().ReadToEnd();
  }

  method ReadAndAdvance(rec: WarcRecord, stream: TrackedReader, maxHeaderLen: nat, ghost rs: seq<ArchiveRecord>, ghost p: nat)
    returns (payload: bytes, r: Next)
    requires rs != [] && Ready(Record(rec), stream, rs, p, rec.quirksMode)
    requires GoodArchive(rs, rec.quirksMode) && HeadsFit(rs, maxHeaderLen)
    modifies rec.Repr()
    ensures payload == rs[0].payload
    ensures fresh(Owned(r, stream)) && Ready(r, stream, rs[1..], p + |RecordText(rs[0])|, rec.quirksMode)
  {
    hide HeadOf, GoodRecord, HeadAt, Holds, HeadTooLong, ArchiveText, RecordText;
    FreshPayload(rec, stream, rs, p, rec.quirksMode);
    AtRecordIsAnchored(rec, stream, rs, p, rec.quirksMode);
    payload := ReadAll(rec, PayloadEnd(rs[0], p));
    r := Advance(rec, stream, maxHeaderLen, rs, p);
  }

  // ------------------------------------------------------------------
  // HTTP headers parsed too late
  // ------------------------------------------------------------------

  /** Reads `n` bytes of the payload, then parses the HTTP headers: the end of the payload moves by `n` bytes. */
  method ParseLate(rec: WarcRecord, n: nat, httpMax: nat, httpQuirks: bool, ghost e: nat)
    returns (parsed: Result<(), IoError>)
    requires rec.Valid() && rec.Anchored(e) && rec.reader.Original? && rec.reader.reader.pos == 0 && rec.HttpPending()
    requires n <= rec.reader.reader.End() - rec.reader.reader.inner.pos
    modifies rec.Repr()
    ensures rec.Valid() && rec.reader == old(rec.reader) && fresh(rec.Repr() - old(rec.Repr()))
    ensures parsed.Err? ==> rec.Anchored(e)
    ensures parsed.Ok? ==> (n > 0 ==> !rec.Anchored(e)) && rec.NextStart() == Min(e + n, |rec.Stream().data|)
  {
    hide ApplyOp, TaskOf, LimitHit, HeaderMap.Abs, HeaderMap.Content, HeaderMap.Valid, TrackedReader.Valid;
    var skipped := rec.ConsumeN(n);
    rec.AnchoredLength(e);
    GoalInInput(EMPTY_MAP, rec.HttpParse(httpQuirks));
    parsed := rec.ParseHttp(httpMax, httpQuirks);
  }

  /** The search for the first of `rs`, the record behind the payload, starts inside its version line. */
  predicate InVersionLine(rs: seq<ArchiveRecord>, n: nat) {
    rs != [] && 4 < n < 4 + |TrimEnd(rs[0].version)|
  }

  /**
   What is found when the search starts `n` bytes behind the end `e` of the
   payload, and thus behind the start of the first of `rs`: nothing in front of
   there. Inside the version line it fails in strict mode, and goes on behind that
   line in quirks mode.
   */
  ghost predicate LostNext(r: Next, e: nat, n: nat, rs: seq<ArchiveRecord>, quirks: bool)
    reads if r.Record? then {r.record} else {}
  {
    && (r.Record? ==> r.record.streamPos >= e + n)
    && (InVersionLine(rs, n) ==>
          if quirks then r.Record? ==> r.record.streamPos >= e + 4 + |rs[0].version| else r.Failed?)
  }

  /**
   After HTTP headers that were parsed behind `n` bytes of the payload, up to four
   bytes are made up for by the record end; with more, the next record is lost.
   */
  method ParseLateThenNext(rec: WarcRecord, stream: TrackedReader, n: nat, httpMax: nat, httpQuirks: bool, maxHeaderLen: nat,
                           ghost rs: seq<ArchiveRecord>, ghost p: nat)
    returns (parsed: Result<(), IoError>, r: Next)
    requires rs != [] && Ready(Record(rec), stream, rs, p, rec.quirksMode) && rec.isHttp && n <= |rs[0].payload|
    requires GoodArchive(rs, rec.quirksMode) && HeadsFit(rs, maxHeaderLen)
    modifies rec.Repr()
    ensures parsed.Err? || n <= 4 ==>
              fresh(Owned(r, stream)) && Ready(r, stream, rs[1..], p + |RecordText(rs[0])|, rec.quirksMode)
    ensures parsed.Ok? && n > 4 ==> LostNext(r, PayloadEnd(rs[0], p), n, rs[1..], rec.quirksMode)
  {
    hide HeadOf, GoodRecord, HeadAt, Holds, HeadTooLong, ArchiveText, RecordText, HeadsFit, GoodArchive, InVersionLine,
      WarcRecord.Anchored, HeaderMap.Abs, HeaderMap.Content, HeaderMap.Valid, TrackedReader.Valid, BodyAt,
      WarcRecord.NextStart;
    ghost var e := PayloadEnd(rs[0], p);
    LateFacts(rec, stream, rs, p, n, maxHeaderLen);
    parsed := ParseLate(rec, n, httpMax, httpQuirks, e);
    if parsed.Err? {
      r := Advance(rec, stream, maxHeaderLen, rs, p);
    } else {
      r := NextRecord(rec, maxHeaderLen);
    }
  }

  lemma LateFacts(rec: WarcRecord, stream: TrackedReader, rs: seq<ArchiveRecord>, p: nat, n: nat, max: nat)
    requires rec.Valid() && AtRecord(rec, stream, rs, p, rec.quirksMode) && n <= |rs[0].payload|
    requires GoodArchive(rs, rec.quirksMode) && HeadsFit(rs, max)
    ensures var e, quirks := PayloadEnd(rs[0], p), rec.quirksMode;
            && rec.Anchored(e) && rec.reader.Original? && rec.reader.reader.pos == 0 && !rec.httpParsed
            && n <= rec.reader.reader.End() - rec.reader.reader.inner.pos && rec.Stream() == stream
            && Holds(stream.data, e, RECORD_END + ArchiveText(rs[1..]))
            && GoodArchive(rs[1..], quirks) && HeadsFit(rs[1..], max)
            && LateSearch(stream.data, e, n, rs[1..], p + |RecordText(rs[0])|, quirks, max)
  {
    hide HeadOf, HeadAt, Holds, HeadTooLong, ArchiveText, TrimEnd, BlockScan, GoodRecord, LateSearch,
      HeaderMap.Abs, HeaderMap.Content, HeaderMap.Valid;
    var quirks := rec.quirksMode;
    FirstIsGood(rs, quirks, max);
    RecordTextSplits(rs[0], []);
    AtRecordIsAnchored(rec, stream, rs, p, quirks);
    FreshPayload(rec, stream, rs, p, quirks);
    LateSearchFinds(stream.data, PayloadEnd(rs[0], p), n, rs[1..], quirks, max);
  }

  /** What a search that starts `n` bytes behind `e` finds. */
  ghost predicate LateSearch(s: bytes, e: nat, n: nat, rs: seq<ArchiveRecord>, q: nat, quirks: bool, max: nat) {
    var start := Min(e + n, |s|);
    var found := HeadAt(s, start, quirks, NO_FIELDS);
    if n <= 4 then
      found == FirstHead(rs, q, quirks) && (rs != [] ==> BodyAt(s, q, rs) && !HeadTooLong(s, start, quirks, max))
    else
      && (found.Found? ==> found.head.start >= e + n)
      && (InVersionLine(rs, n) ==>
            if quirks then found.Found? ==> found.head.start >= e + 4 + |rs[0].version| else found.Malformed?)
  }

  lemma LateSearchFinds(s: bytes, e: nat, n: nat, rs: seq<ArchiveRecord>, quirks: bool, max: nat)
    requires Holds(s, e, RECORD_END + ArchiveText(rs)) && GoodArchive(rs, quirks) && HeadsFit(rs, max)
    ensures LateSearch(s, e, n, rs, e + 4, quirks, max)
  {
    hide HeadOf, HeadAt, Holds, HeadTooLong, ArchiveText, TrimEnd, GoodRecord;
    if n <= 4 {
      LateNext(s, e, rs, n, quirks, max);
    } else {
      if InVersionLine(rs, n) {
        LateNextIsLost(s, e, rs, n, quirks);
      }
      if e + n > |s| {
        NothingBehind(s, |s|, quirks);
      }
    }
  }

  // ------------------------------------------------------------------
  // In place
  // ------------------------------------------------------------------

  /** Every record announces its length where the reader looks for it. */
  predicate AllAnnounce(rs: seq<ArchiveRecord>, quirks: bool) {
    forall i :: 0 <= i < |rs| ==> TakesLength(BlockScan(rs[i], quirks).state.block.headers, 0)
  }

  /** On such archives the length left over from the record before makes no difference. */
  lemma LeftoverHidden(s: bytes, p: nat, quirks: bool, c: nat, r: ArchiveRecord, q: nat)
    requires HeadAt(s, p, quirks, NO_FIELDS) == Found(HeadOf(r, q, quirks))
    requires TakesLength(BlockScan(r, quirks).state.block.headers, 0)
    ensures HeadAt(s, p, quirks, NO_FIELDS.(contentLength := c)) == HeadAt(s, p, quirks, NO_FIELDS)
  {
    hide TakeFields, FindVersion, ApplyOp, TaskOf, BlockScan, TakesLength;
    LeftoverLengthShows(BlockScan(r, quirks).state.block.headers, c);
  }

  /** As `Visit`, but the next record is read into the same object. */
  method VisitInplace(rec: WarcRecord, stream: TrackedReader, steps: seq<Step>, maxHeaderLen: nat,
                      ghost rs: seq<ArchiveRecord>, ghost p: nat)
    returns (sight: Seen, next: Inplace)
    requires rec.Valid() && AtRecord(rec, stream, rs, p, rec.quirksMode) && KeepsStream(steps)
    requires GoodArchive(rs, rec.quirksMode) && HeadsFit(rs, maxHeaderLen) && AllAnnounce(rs[1..], rec.quirksMode)
    modifies rec.Repr()
    ensures rec.Valid() && rec.Repr() <= old(rec.Repr())
    ensures sight == SeenOf(HeadOf(rs[0], p, rec.quirksMode))
    ensures if rs[1..] == [] then next == Ended
            else next == Updated && AtRecord(rec, stream, rs[1..], p + |RecordText(rs[0])|, rec.quirksMode)
  {
    hide HeadOf, GoodRecord, HeadAt, Holds, HeadTooLong, ArchiveText, RecordText, BlockScan, TakesLength;
    sight := SeenBy(rec, stream, rs, p, rec.quirksMode);
    AtRecordIsAnchored(rec, stream, rs, p, rec.quirksMode);
    TakeSteps(rec, steps, PayloadEnd(rs[0], p));
    ArchiveNext(stream.data, p, rs, rec.quirksMode, maxHeaderLen);
    if rs[1..] != [] {
      LeftoverHidden(stream.data, PayloadEnd(rs[0], p), rec.quirksMode, rec.contentLength, rs[1], p + |RecordText(rs[0])|);
    } else {
      NoLeftover(stream.data, PayloadEnd(rs[0], p), rec.quirksMode, rec.contentLength);
    }
    rec.AnchoredNext(PayloadEnd(rs[0], p));
    next := rec.NextInplace(maxHeaderLen);
  }

  lemma NoLeftover(s: bytes, p: nat, quirks: bool, c: nat)
    requires HeadAt(s, p, quirks, NO_FIELDS) == AtEnd
    ensures HeadAt(s, p, quirks, NO_FIELDS.(contentLength := c)) == AtEnd
  {
    hide TakeFields, FindVersion, ApplyOp, TaskOf;
  }

  /** Iterating in place sees what iterating with fresh records sees. */
  method IterateInplace(stream: TrackedReader, quirks: bool, maxHeaderLen: nat, plan: seq<seq<Step>>,
                        ghost rs: seq<ArchiveRecord>)
    returns (seen: seq<Seen>, failed: bool)
    requires stream.Valid() && stream.pos == 0 && stream.data == ArchiveText(rs)
    requires GoodArchive(rs, quirks) && HeadsFit(rs, maxHeaderLen) && (rs != [] ==> AllAnnounce(rs[1..], quirks))
    requires forall i :: 0 <= i < |plan| ==> KeepsStream(plan[i])
    modifies stream
    ensures !failed && seen == Report(rs, 0, quirks)
  {
    hide GoodRecord, HeadFits, RecordText, Report, AtRecord, ArchiveText, HeadOf, SeenOf, WarcRecord.Repr,
      WarcRecord.Valid, BlockScan, TakesLength;
    seen := [];
    ghost var todo, p: nat := rs, 0;
    NothingToReport(p, quirks);
    var first := Begin(stream, quirks, maxHeaderLen, rs);
    if !first.Record? {
      return seen, first.Failed?;
    }
    var rec, next, i := first.record, Updated, 0;
    AtRecordMode(rec, stream, todo, p, quirks);
    assert Record(rec) == first;
    while next == Updated
      invariant GoodArchive(todo, quirks) && HeadsFit(todo, maxHeaderLen) && (todo != [] ==> AllAnnounce(todo[1..], quirks))
      invariant rec.Valid() && fresh(Owned(Record(rec), stream)) && rec.quirksMode == quirks
      invariant if todo == [] then next == Ended else next == Updated && AtRecord(rec, stream, todo, p, quirks)
      invariant seen + Report(todo, p, quirks) == Report(rs, 0, quirks)
      decreases |todo|
    {
      ReportSplits(seen, todo, p, quirks);
      assert rec.Repr() <= {stream} + Owned(Record(rec), stream);
      var sight;
      sight, next := VisitInplace(rec, stream, if i < |plan| then plan[i] else [], maxHeaderLen, todo, p);
      seen := seen + [sight];
      p := p + |RecordText(todo[0])|;
      todo := todo[1..];
      i := i + 1;
    }
    failed := next.Broken?;
    NothingToReport(p, quirks);
  }

  // ------------------------------------------------------------------
  // The report, record by record
  // ------------------------------------------------------------------

  /** Where the i-th record begins. */
  function StartOf(rs: seq<ArchiveRecord>, i: nat): (p: nat)
    requires i <= |rs|
  {
    |ArchiveText(rs[..i])|
  }

  lemma StartBehindFirst(rs: seq<ArchiveRecord>, i: nat)
    requires 0 < i <= |rs|
    ensures StartOf(rs, i) == |RecordText(rs[0])| + StartOf(rs[1..], i - 1)
  {
    hide RecordText;
    assert rs[..i][1..] == rs[1..][..i - 1];
  }

  /** A report gives each record its offset, its fields and its head. */
  lemma {:induction false} ReportedAt(rs: seq<ArchiveRecord>, p: nat, quirks: bool, i: nat)
    requires i < |rs|
    ensures var sight := Report(rs, p, quirks)[i];
            && sight.streamPos == p + StartOf(rs, i) && sight.headerBlock == rs[i].version + rs[i].block
            && sight.fields == FieldsOf(rs[i], quirks)
    decreases |rs|
  {
    hide RecordText, FieldsOf, BlockScan;
    if i == 0 {
      assert rs[..0] == [];
    } else {
      StartBehindFirst(rs, i);
      ReportedAt(rs[1..], p + |RecordText(rs[0])|, quirks, i - 1);
    }
  }
}

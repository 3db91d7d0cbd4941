/**
 Iterating an archive with digest verification, HTTP parsing and a filter
 (fastwarc-rs/src/warc/iter.rs): exactly the records that pass are returned, in
 order.
 */
module FilteredArchives {
  import opened Wrappers
  import opened ByteStrings
  import opened Readers
  import opened HeaderScan
  import opened HeaderText
  import opened HeaderCache
  import opened HeaderMaps
  import opened RecordHead
  import opened ArchiveFormat
  import opened Records
  import opened Archives

  datatype Options = Options(parseHttp: bool, verifyDigests: bool, quirks: bool, maxHeaderLen: nat)

  /** A block digest: missing or not readable, of an unknown algorithm, or compared with that of the block. */
  datatype Digest = Unreadable | Unsupported | Compared(matches: bool)

  /** What the block digest of the record at a stream position says; digests themselves are not computed here. */
  type DigestOracle = nat -> Digest

  /** Verification is off, or the digest is that of the block. */
  predicate Passes(d: Digest, o: Options) {
    !o.verifyDigests || d == Compared(true)
  }

  /** HTTP headers do not run into the header limit, however they are buffered. */
  predicate HttpFits(payload: bytes, o: Options) {
    2 * HttpLength(payload, o.quirks) <= o.maxHeaderLen
  }

  predicate HttpFit(rs: seq<ArchiveRecord>, o: Options) {
    forall i :: 0 <= i < |rs| ==> HttpFits(rs[i].payload, o)
  }

  predicate Fits(rs: seq<ArchiveRecord>, o: Options) {
    GoodArchive(rs, o.quirks) && HeadsFit(rs, o.maxHeaderLen) && (o.parseHttp ==> HttpFit(rs, o))
  }

  lemma FitsRest(rs: seq<ArchiveRecord>, o: Options)
    requires Fits(rs, o) && rs != []
    ensures Fits(rs[1..], o) && GoodRecord(rs[0], o.quirks) && (o.parseHttp ==> HttpFits(rs[0].payload, o))
  {
    hide GoodRecord, HeadFits, HttpFits;
  }

  /** A record as the filter and the caller find it: its HTTP block may have been parsed off. */
  datatype View = View(streamPos: nat, fields: Fields, headerBlock: bytes, http: Option<bytes>)

  function Look(rec: WarcRecord): (v: View)
    reads rec, rec.headers, if rec.httpHeaders == null then {} else {rec.httpHeaders}
  {
    View(rec.streamPos, rec.Given(), rec.headers.raw, if rec.httpHeaders == null then None else Some(rec.httpHeaders.raw))
  }

  /** The HTTP block is parsed off before the filter looks at the record. */
  predicate ParsesHttp(r: ArchiveRecord, o: Options) {
    o.parseHttp && FieldsOf(r, o.quirks).isHttp
  }

  /** What is seen of a record that starts at `p`: the content length is that of what is left of the payload. */
  function ViewOf(r: ArchiveRecord, p: nat, o: Options): (v: View) {
    var http := if ParsesHttp(r, o) then Some(HttpText(r.payload, o.quirks)) else None;
    var used := if ParsesHttp(r, o) then HttpLength(r.payload, o.quirks) else 0;
    View(p, FieldsOf(r, o.quirks).(contentLength := |r.payload| - used), r.version + r.block, http)
  }

  /** The views of the records that pass digest verification, the first record starting at `p`. */
  function Passing(rs: seq<ArchiveRecord>, p: nat, o: Options, digest: DigestOracle): (r: seq<View>) {
    if rs == [] then []
    else
      (if Passes(digest(p), o) then [ViewOf(rs[0], p, o)] else [])
      + Passing(rs[1..], p + |RecordText(rs[0])|, o, digest)
  }

  function Filter(seen: seq<View>, pred: View -> bool): (r: seq<View>) {
    if seen == [] then [] else (if pred(seen[0]) then [seen[0]] else []) + Filter(seen[1..], pred)
  }

  // ------------------------------------------------------------------
  // Where the iterator stands
  // ------------------------------------------------------------------

  /** Before the first record, or at the first of `rs`, whose payload may have been used. */
  ghost predicate Current(cur: WarcRecord?, stream: TrackedReader, rs: seq<ArchiveRecord>, p: nat, quirks: bool)
    reads if cur == null then {stream} else {cur} + cur.Repr()
  {
    if cur == null then stream.Valid() && stream.pos == 0 == p && stream.data == ArchiveText(rs)
    else
      && cur.Valid() && rs != [] && cur.quirksMode == quirks && cur.Anchored(PayloadEnd(rs[0], p)) && cur.Stream() == stream
      && Holds(stream.data, PayloadEnd(rs[0], p), RECORD_END + ArchiveText(rs[1..]))
  }

  function Coming(started: bool, rs: seq<ArchiveRecord>): (r: seq<ArchiveRecord>) {
    if started && rs != [] then rs[1..] else rs
  }

  function ComingAt(started: bool, rs: seq<ArchiveRecord>, p: nat): (r: nat) {
    if started && rs != [] then p + |RecordText(rs[0])| else p
  }

  method Fetch(cur: WarcRecord?, stream: TrackedReader, o: Options, ghost rs: seq<ArchiveRecord>, ghost p: nat)
    returns (r: Next)
    requires Current(cur, stream, rs, p, o.quirks) && Fits(rs, o)
    modifies stream, if cur == null then {} else cur.Repr()
    ensures fresh(Owned(r, stream))
    ensures Ready(r, stream, Coming(cur != null, rs), ComingAt(cur != null, rs, p), o.quirks)
  {
    hide GoodRecord, HeadOf, Holds, HeadFits, ArchiveText, RecordText, AtRecord, WarcRecord.Valid, WarcRecord.Anchored;
    if cur == null {
      r := Begin(stream, o.quirks, o.maxHeaderLen, rs);
    } else {
      FitsRest(rs, o);
      r := Advance(cur, stream, o.maxHeaderLen, rs, p);
    }
  }

  // ------------------------------------------------------------------
  // Looking at a record
  // ------------------------------------------------------------------

  /** Reads what is left of the payload, and goes back to where it began. */
  method ReadAndRestore(rec: WarcRecord) returns (rest: bytes)
    requires rec.Valid() && !rec.reader.Detached?
    modifies rec.PayloadFrame()
    ensures rec.Valid() && rest == old(rec.Unread(1))
    ensures rec.PayloadReader().Advanced(0) && rec.Unread(1) == old(rec.Unread(1))
    ensures forall e :: old(rec.Anchored(e)) ==> rec.Anchored(e)
  {
    hide HeaderMap.Content, HeaderMap.Valid, HeaderMap.Abs, Text;
    var p := rec.PayloadReader();
    var pos := p.pos;
    rest := p.ReadToEnd();
    var restored := p.Seek(Start(pos));
  }

  /**
   Verifies the block digest of a record. Unless the digest cannot be read, this
   freezes the record; to compare the digest the payload is then read, and the
   reader is set back.
   */
  method VerifyBlockDigest(rec: WarcRecord, digest: Digest) returns (ok: bool)
    requires rec.Valid() && !rec.reader.Detached?
    modifies rec.Repr()
    ensures rec.Valid() && !rec.reader.Detached? && fresh(rec.Repr() - old(rec.Repr()))
    ensures ok <==> digest == Compared(true)
    ensures var freezes := !digest.Unreadable? && old(rec.reader.Original?);
            && (rec.reader.Frozen? <==> freezes || old(rec.reader.Frozen?))
            && rec.PayloadReader().pos == (if freezes then 0 else old(rec.PayloadReader().pos))
            && rec.contentLength == (if freezes then |old(rec.Unread(1))| else old(rec.contentLength))
    ensures rec.Unread(1) == old(rec.Unread(1)) && rec.Given() == old(rec.Given()).(contentLength := rec.contentLength)
    ensures rec.streamPos == old(rec.streamPos) && rec.headers.Abs() == old(rec.headers.Abs())
    ensures rec.httpParsed == old(rec.httpParsed) && rec.httpHeaders == old(rec.httpHeaders)
    ensures forall e :: old(rec.Anchored(e)) ==> rec.Anchored(e) && rec.Stream() == old(rec.Stream())
  {
    hide HeaderMap.Content, HeaderMap.Valid, HeaderMap.Abs, Text, TrackedReader.Valid, LimitedReader.End;
    if digest.Unreadable? {
      return false;
    }
    FreezeUnread(rec);
    if digest.Unsupported? {
      return false;
    }
    var read := ReadAndRestore(rec);
    return digest.matches;
  }

  /** Freezing leaves the unread payload what it was. */
  method FreezeUnread(rec: WarcRecord)
    requires rec.Valid() && !rec.reader.Detached?
    modifies rec`reader, rec`contentLength, rec.PayloadFrame()
    ensures rec.Valid() && rec.reader.Frozen? && fresh(rec.Repr() - old(rec.Repr()))
    ensures rec.Unread(1) == old(rec.Unread(1))
    ensures if old(rec.reader.Original?) then rec.PayloadReader().pos == 0 && rec.contentLength == |old(rec.Unread(1))|
            else rec.PayloadReader().pos == old(rec.PayloadReader().pos) && rec.contentLength == old(rec.contentLength)
    ensures rec.headers.Abs() == old(rec.headers.Abs())
    ensures forall e :: old(rec.Anchored(e)) ==> rec.Anchored(e) && rec.Stream() == old(rec.Stream())
  {
    hide HeaderMap.Content, HeaderMap.Valid, HeaderMap.Abs, Text, TrackedReader.Valid;
    WholeText(rec.Unread(1));
    var frozen := rec.Freeze();
  }

  /** A record that has just been read offers its payload. */
  lemma FreshRecord(rec: WarcRecord, stream: TrackedReader, rs: seq<ArchiveRecord>, p: nat, quirks: bool)
    requires rec.Valid() && AtRecord(rec, stream, rs, p, quirks) && GoodArchive(rs, quirks)
    ensures rec.reader.Original? && rec.reader.reader.pos == 0 && rec.Stream() == stream && rec.quirksMode == quirks
    ensures rec.Unread(1) == rs[0].payload && !rec.httpParsed && rec.Anchored(PayloadEnd(rs[0], p))
    ensures rec.streamPos == p && rec.Given() == FieldsOf(rs[0], quirks) && rec.contentLength == |rs[0].payload|
    ensures rec.headers.Abs().raw == rs[0].version + rs[0].block && rec.httpHeaders == null
    ensures Holds(stream.data, PayloadEnd(rs[0], p), RECORD_END + ArchiveText(rs[1..]))
  {
    hide HeadOf, FieldsOf, BlockScan, GoodRecord, ArchiveText, HeaderMap.Abs;
    HeadBody(rs[0], p, quirks);
    AnnouncesPayload(rs, quirks);
    FreshPayload(rec, stream, rs, p, quirks);
    AtRecordIsAnchored(rec, stream, rs, p, quirks);
  }

  lemma AnnouncesPayload(rs: seq<ArchiveRecord>, quirks: bool)
    requires rs != [] && GoodArchive(rs, quirks)
    ensures FieldsOf(rs[0], quirks).contentLength == |rs[0].payload|
  {
    hide GoodVersion, BlockScan, TakeFields;
  }

  lemma NotDetached(rec: WarcRecord, e: nat)
    requires rec.Valid() && rec.Anchored(e)
    ensures !rec.reader.Detached?
  {
  }

  /** The HTTP block that is parsed off is the one the payload begins with. */
  lemma HttpBlockOf(rec: WarcRecord, o: Options)
    requires rec.Valid() && !rec.reader.Detached?
    ensures var op, unread := rec.HttpParse(o.quirks), rec.Unread(1);
            && TaskOf(EMPTY_MAP, op).goal.pos == rec.PayloadReader().inner.pos + HttpLength(unread, o.quirks)
            && ApplyOp(EMPTY_MAP, op).raw == HttpText(unread, o.quirks)
            && (HttpFits(unread, o) ==> !LimitHit(TaskOf(EMPTY_MAP, op), o.maxHeaderLen))
  {
    hide Scan, ScanBehind, HttpLength, Text, HeaderMap.Content, HeaderMap.Valid;
    var p := rec.PayloadReader();
    HttpBlockAt(p.inner.data, p.inner.pos, p.End(), rec.Unread(1), o.quirks);
  }

  /** Parses the HTTP headers of a record of which nothing has been read. */
  method ParseHttpOf(rec: WarcRecord, o: Options, ghost e: nat) returns (r: Result<(), IoError>)
    requires rec.Valid() && rec.Anchored(e) && rec.PayloadReader().pos == 0 && !rec.httpParsed
    modifies rec.Repr()
    ensures rec.Valid() && rec.Anchored(e) && rec.Stream() == old(rec.Stream()) && fresh(rec.Repr() - old(rec.Repr()))
    ensures rec.streamPos == old(rec.streamPos) && rec.headers.Abs() == old(rec.headers.Abs()) && rec.reader == old(rec.reader)
    ensures HttpFits(old(rec.Unread(1)), o) || !rec.isHttp ==> r.Ok?
    ensures var unread := old(rec.Unread(1));
            if r.Err? || !rec.isHttp then rec.Given() == old(rec.Given()) && rec.httpHeaders == old(rec.httpHeaders)
            else
              && rec.Given() == old(rec.Given()).(contentLength := rec.contentLength)
              && rec.contentLength == old(rec.contentLength) - HttpLength(unread, o.quirks)
              && rec.httpHeaders != null && rec.httpHeaders.raw == HttpText(unread, o.quirks)
  {
    hide HeaderMap.Content, HeaderMap.Valid, TrackedReader.Valid, Text, WarcRecord.Anchored, HttpFits, LimitHit, HttpText,
      HttpLength, ApplyOp, TaskOf;
    NotDetached(rec, e);
    rec.AnchoredLength(e);
    HttpBlockOf(rec, o);
    if rec.isHttp {
      r := rec.ParseHttp(o.maxHeaderLen, o.quirks);
    } else {
      r := Ok(());
    }
  }

  // ------------------------------------------------------------------
  // The two loops
  // ------------------------------------------------------------------

  /** What the iterator still has to return. */
  function Ahead(started: bool, rs: seq<ArchiveRecord>, p: nat, o: Options, digest: DigestOracle): (r: seq<View>) {
    Passing(Coming(started, rs), ComingAt(started, rs, p), o, digest)
  }

  /** Verifies the digest and parses the HTTP headers of a new record, as the options say. */
  method Prepare(rec: WarcRecord, stream: TrackedReader, o: Options, digest: Digest,
                 ghost rs: seq<ArchiveRecord>, ghost p: nat)
    returns (keep: bool, r: Result<(), IoError>)
    requires rec.Valid() && AtRecord(rec, stream, rs, p, o.quirks) && Fits(rs, o)
    modifies rec.Repr()
    ensures Current(rec, stream, rs, p, o.quirks) && fresh(rec.Repr() - old(rec.Repr()))
    ensures r.Ok? && (keep <==> Passes(digest, o))
    ensures rec.reader.Frozen? <==> o.verifyDigests && !digest.Unreadable?
    ensures keep ==> Look(rec) == ViewOf(rs[0], p, o)
  {
    hide GoodRecord, HeadOf, Holds, HeadFits, HttpFits, GoodArchive, HeadsFit, ArchiveText, AtRecord, WarcRecord.Valid,
      WarcRecord.Anchored, RecordText, HttpLength, HttpText, FieldsOf, HeaderMap.Content, HeaderMap.Valid;
    IsFirst(rec, stream, rs, p, o.quirks);
    FitsRest(rs, o);
    FreshRecord(rec, stream, rs, p, o.quirks);
    ghost var e := PayloadEnd(rs[0], p);
    r := Ok(());
    if o.verifyDigests {
      NotDetached(rec, e);
      var ok := VerifyBlockDigest(rec, digest);
      if !ok {
        return false, r;
      }
    }
    if o.parseHttp {
      r := ParseHttpOf(rec, o, e);
    }
    return true, r;
  }

  lemma IsFirst(rec: WarcRecord, stream: TrackedReader, rs: seq<ArchiveRecord>, p: nat, quirks: bool)
    requires rec.Valid() && AtRecord(rec, stream, rs, p, quirks)
    ensures rs != [] && rec.streamPos == p
  {
    HeadBody(rs[0], p, quirks);
  }

  /** Fetches one record and prepares it. */
  method FetchPrepared(cur: WarcRecord?, stream: TrackedReader, o: Options, digest: DigestOracle,
                       ghost rs: seq<ArchiveRecord>, ghost p: nat)
    returns (rec: WarcRecord?, sight: View, keep: bool, failed: bool, ghost owned: set<object>)
    requires Current(cur, stream, rs, p, o.quirks) && Fits(rs, o)
    modifies stream, if cur == null then {} else cur.Repr()
    ensures !failed && fresh(owned)
    ensures var todo, q := Coming(cur != null, rs), ComingAt(cur != null, rs, p);
            if todo == [] then rec == null
            else
              && rec != null && rec.Repr() <= owned + {stream} && Current(rec, stream, todo, q, o.quirks)
              && (keep <==> Passes(digest(q), o)) && (keep ==> sight == ViewOf(todo[0], q, o))
  {
    hide GoodRecord, HeadOf, Holds, HeadFits, ArchiveText, AtRecord, WarcRecord.Valid, WarcRecord.Anchored,
      RecordText, Fits,
      ViewOf, Look, Coming, ComingAt;
    FitsComing(cur != null, rs, o);
    ghost var todo, q := Coming(cur != null, rs), ComingAt(cur != null, rs, p);
    var next := Fetch(cur, stream, o, rs, p);
    failed, owned := next.Failed?, {};
    if !next.Record? {
      return null, View(0, NO_FIELDS, [], None), false, failed, owned;
    }
    OwnsItself(next.record);
    ghost var before := next.record.Repr();
    assert before <= {stream} + Owned(next, stream);
    IsFirst(next.record, stream, todo, q, o.quirks);
    var ready;
    keep, ready := Prepare(next.record, stream, o, digest(next.record.streamPos), todo, q);
    rec, failed := next.record, ready.Err?;
    sight := Look(rec);
    owned := (rec.Repr() - before) + (before - {stream});
  }

  /** The next record that passes digest verification. */
  method NextVerified(start: WarcRecord?, stream: TrackedReader, o: Options, digest: DigestOracle,
                      ghost all: seq<ArchiveRecord>, ghost from: nat)
    returns (cur: WarcRecord?, sight: View, failed: bool,
             ghost rs: seq<ArchiveRecord>, ghost p: nat, ghost owned: set<object>)
    requires Current(start, stream, all, from, o.quirks) && Fits(all, o)
    modifies stream, if start == null then {} else start.Repr()
    ensures !failed && fresh(owned)
    ensures cur != null ==>
              && Current(cur, stream, rs, p, o.quirks) && Fits(rs, o) && cur.Repr() <= owned + {stream}
              && 0 < |rs| <= |Coming(start != null, all)|
    ensures Ahead(start != null, all, from, o, digest) ==
            if cur == null then [] else [sight] + Ahead(true, rs, p, o, digest)
  {
    hide GoodRecord, HeadOf, Holds, HeadFits, ArchiveText, RecordText, Fits, WarcRecord.Repr, ViewOf, Current;
    rs, p := all, from;
    var keep;
    cur, sight, keep, failed, owned := FetchPrepared(start, stream, o, digest, rs, p);
    AheadSteps(start != null, rs, p, o, digest);
    FitsComing(start != null, rs, o);
    rs, p := Coming(start != null, rs), ComingAt(start != null, rs, p);
    while cur != null && !keep
      invariant !failed && fresh(owned) && (cur == null <==> rs == [])
      invariant cur != null ==> Current(cur, stream, rs, p, o.quirks) && Fits(rs, o)
      invariant cur != null ==> cur.Repr() <= owned + {stream} && |rs| <= |Coming(start != null, all)|
      invariant Ahead(start != null, all, from, o, digest) ==
                if cur == null then [] else (if keep then [sight] else []) + Ahead(true, rs, p, o, digest)
      decreases |rs|
    {
      ghost var before, q := rs, p;
      cur, sight, keep, failed, owned := FetchPrepared(cur, stream, o, digest, rs, p);
      AheadSteps(true, before, q, o, digest);
      FitsComing(true, before, o);
      rs, p := Coming(true, before), ComingAt(true, before, q);
    }
  }

  /** The next record that passes digest verification and the filter. */
  method NextFiltered(start: WarcRecord?, stream: TrackedReader, o: Options, digest: DigestOracle, pred: View -> bool,
                      ghost all: seq<ArchiveRecord>, ghost from: nat)
    returns (cur: WarcRecord?, sight: View, failed: bool,
             ghost rs: seq<ArchiveRecord>, ghost p: nat, ghost owned: set<object>)
    requires Current(start, stream, all, from, o.quirks) && Fits(all, o)
    modifies stream, if start == null then {} else start.Repr()
    ensures !failed && fresh(owned)
    ensures cur != null ==>
              && Current(cur, stream, rs, p, o.quirks) && Fits(rs, o) && cur.Repr() <= owned + {stream}
              && 0 < |rs| <= |Coming(start != null, all)|
    ensures Filter(Ahead(start != null, all, from, o, digest), pred) ==
            if cur == null then [] else [sight] + Filter(Ahead(true, rs, p, o, digest), pred)
  {
    hide Fits, WarcRecord.Repr, Current, Ahead;
    cur, sight, failed, rs, p, owned := NextVerified(start, stream, o, digest, all, from);
    FilterSteps(sight, Ahead(true, rs, p, o, digest), pred);
    while cur != null && !pred(sight)
      invariant !failed && fresh(owned)
      invariant cur != null ==> Current(cur, stream, rs, p, o.quirks) && Fits(rs, o)
      invariant cur != null ==> cur.Repr() <= owned + {stream} && 0 < |rs| <= |Coming(start != null, all)|
      invariant Filter(Ahead(start != null, all, from, o, digest), pred) ==
                if cur == null then [] else Filter([sight] + Ahead(true, rs, p, o, digest), pred)
      decreases if cur == null then 0 else |rs|
    {
      FilterSteps(sight, Ahead(true, rs, p, o, digest), pred);
      cur, sight, failed, rs, p, owned := NextVerified(cur, stream, o, digest, rs, p);
    }
    FilterSteps(sight, Ahead(true, rs, p, o, digest), pred);
  }

  lemma FilterSteps(sight: View, seen: seq<View>, pred: View -> bool)
    ensures Filter([], pred) == []
    ensures Filter([sight] + seen, pred) == (if pred(sight) then [sight] else []) + Filter(seen, pred)
    ensures [] + Filter(seen, pred) == Filter(seen, pred)
  {
    assert ([sight] + seen)[1..] == seen;
  }

  /** The caller uses a record it was given. */
  method UseRecord(cur: WarcRecord, stream: TrackedReader, o: Options, steps: seq<Step>,
                   ghost rs: seq<ArchiveRecord>, ghost p: nat, ghost before: set<object>)
    returns (ghost owned: set<object>)
    requires Current(cur, stream, rs, p, o.quirks) && cur.Repr() <= before + {stream}
    modifies cur.Repr()
    ensures Current(cur, stream, rs, p, o.quirks) && cur.Repr() <= owned + {stream} && fresh(owned - before)
    ensures fresh(cur.Repr() - old(cur.Repr())) && (cur.reader.Frozen? <==> old(cur.reader.Frozen?) || !KeepsStream(steps))
  {
    hide KeepsStream, HeadOf, Holds, ArchiveText, WarcRecord.Anchored, RecordText;
    ghost var first := cur.Repr();
    TakeSteps(cur, steps, PayloadEnd(rs[0], p));
    owned := before + (cur.Repr() - first);
  }

  /**
   Iterates a well-formed archive with a filter. `plan` tells what is done with
   each record that is returned. Exactly the records that pass are collected, in
   order and as the filter saw them, that is behind their HTTP block if that is
   parsed; also when verification froze the records in between.
   */
  method FilteredIterate(stream: TrackedReader, o: Options, digest: DigestOracle, pred: View -> bool, plan: seq<seq<Step>>,
                         ghost all: seq<ArchiveRecord>)
    returns (seen: seq<View>, failed: bool)
    requires stream.Valid() && stream.pos == 0 && stream.data == ArchiveText(all) && Fits(all, o)
    modifies stream
    ensures !failed && seen == Filter(Passing(all, 0, o, digest), pred)
  {
    hide Fits, WarcRecord.Repr, Passing, ArchiveText, Filter;
    ghost var rs, p: nat, owned: set<object> := all, 0, {};
    var cur: WarcRecord? := null;
    seen, failed := [], false;
    var i := 0;
    while true
      invariant !failed && Current(cur, stream, rs, p, o.quirks) && Fits(rs, o)
      invariant fresh(owned) && (cur != null ==> cur.Repr() <= owned + {stream})
      invariant seen + Filter(Ahead(cur != null, rs, p, o, digest), pred) == Filter(Passing(all, 0, o, digest), pred)
      decreases |Coming(cur != null, rs)|
    {
      var sight;
      cur, sight, failed, rs, p, owned := NextFiltered(cur, stream, o, digest, pred, rs, p);
      if cur == null {
        break;
      }
      seen := seen + [sight];
      owned := UseRecord(cur, stream, o, if i < |plan| then plan[i] else [], rs, p, owned);
      i := i + 1;
    }
  }

  lemma OwnsItself(rec: WarcRecord)
    ensures rec in rec.Repr()
  {
  }

  lemma FitsComing(started: bool, rs: seq<ArchiveRecord>, o: Options)
    requires Fits(rs, o)
    ensures Fits(Coming(started, rs), o)
  {
    hide GoodRecord, HeadFits;
  }

  /** The record that is fetched is the first of those ahead, if it passes. */
  lemma AheadSteps(started: bool, rs: seq<ArchiveRecord>, p: nat, o: Options, digest: DigestOracle)
    ensures var todo, q := Coming(started, rs), ComingAt(started, rs, p);
            Ahead(started, rs, p, o, digest) ==
            if todo == [] then []
            else
              (if Passes(digest(q), o) then [ViewOf(todo[0], q, o)] else [])
              + Ahead(true, todo, q, o, digest)
    ensures forall s: seq<View> :: [] + s == s
  {
    hide HeadOf, RecordText;
  }

  // ------------------------------------------------------------------
  // In place
  // ------------------------------------------------------------------

  /** Verification freezes the record, which ends an iteration in place. */
  predicate Freezes(d: Digest, o: Options) {
    o.verifyDigests && !d.Unreadable?
  }

  /** The record that starts at `p` is returned. */
  predicate Kept(r: ArchiveRecord, p: nat, o: Options, digest: DigestOracle, pred: View -> bool) {
    Passes(digest(p), o) && pred(ViewOf(r, p, o))
  }

  /** What the caller does with a record, if it is returned. */
  function StepsFor(kept: bool, plan: seq<seq<Step>>): seq<Step> {
    if kept && plan != [] then plan[0] else []
  }

  function PlanBehind(kept: bool, plan: seq<seq<Step>>): seq<seq<Step>> {
    if kept && plan != [] then plan[1..] else plan
  }

  /** The record is frozen, by verification or by the caller, which ends the iteration. */
  predicate EndsAt(r: ArchiveRecord, p: nat, o: Options, digest: DigestOracle, pred: View -> bool, plan: seq<seq<Step>>) {
    Freezes(digest(p), o) || !KeepsStream(StepsFor(Kept(r, p, o, digest, pred), plan))
  }

  /** What iterating in place returns, when `plan` is done with the records that are returned. */
  function InplaceFound(rs: seq<ArchiveRecord>, p: nat, o: Options, digest: DigestOracle, pred: View -> bool,
                        plan: seq<seq<Step>>): (r: seq<View>)
    decreases |rs|
  {
    if rs == [] then []
    else
      var kept := Kept(rs[0], p, o, digest, pred);
      (if kept then [ViewOf(rs[0], p, o)] else [])
      + (if EndsAt(rs[0], p, o, digest, pred, plan) then []
         else InplaceFound(rs[1..], p + |RecordText(rs[0])|, o, digest, pred, PlanBehind(kept, plan)))
  }

  predicate NoneKept(rs: seq<ArchiveRecord>, p: nat, o: Options, digest: DigestOracle, pred: View -> bool) {
    rs != [] ==> !Kept(rs[0], p, o, digest, pred) && NoneKept(rs[1..], p + |RecordText(rs[0])|, o, digest, pred)
  }

  /** Behind the first record that is frozen, none is to be returned. */
  predicate NoneKeptBehindFrozen(rs: seq<ArchiveRecord>, p: nat, o: Options, digest: DigestOracle, pred: View -> bool,
                                 plan: seq<seq<Step>>)
    decreases |rs|
  {
    rs != [] ==>
      var q := p + |RecordText(rs[0])|;
      if EndsAt(rs[0], p, o, digest, pred, plan) then NoneKept(rs[1..], q, o, digest, pred)
      else NoneKeptBehindFrozen(rs[1..], q, o, digest, pred, PlanBehind(Kept(rs[0], p, o, digest, pred), plan))
  }

  /** The first record of those that pass and get through the filter. */
  lemma PassingSplits(rs: seq<ArchiveRecord>, p: nat, o: Options, digest: DigestOracle, pred: View -> bool)
    requires rs != []
    ensures Filter(Passing(rs, p, o, digest), pred) ==
            (if Kept(rs[0], p, o, digest, pred) then [ViewOf(rs[0], p, o)] else [])
            + Filter(Passing(rs[1..], p + |RecordText(rs[0])|, o, digest), pred)
  {
    hide RecordText, ViewOf, Passes, Filter;
    var rest := Passing(rs[1..], p + |RecordText(rs[0])|, o, digest);
    FilterSteps(ViewOf(rs[0], p, o), rest, pred);
    assert [] + rest == rest;
  }

  lemma {:induction false} NoneKeptIff(rs: seq<ArchiveRecord>, p: nat, o: Options, digest: DigestOracle, pred: View -> bool)
    ensures Filter(Passing(rs, p, o, digest), pred) == [] <==> NoneKept(rs, p, o, digest, pred)
  {
    hide RecordText, ViewOf, Passes, Kept, Passing;
    if rs != [] {
      PassingSplits(rs, p, o, digest, pred);
      NoneKeptIff(rs[1..], p + |RecordText(rs[0])|, o, digest, pred);
    } else {
      NothingPasses(p, o, digest);
    }
  }

  lemma NothingPasses(p: nat, o: Options, digest: DigestOracle)
    ensures Passing([], p, o, digest) == []
  {
  }

  /**
   Iterating in place returns what iterating with fresh records returns exactly
   when nothing of it stands behind a frozen record.
   */
  lemma {:induction false} InplaceFindsAllIff(rs: seq<ArchiveRecord>, p: nat, o: Options, digest: DigestOracle,
                                              pred: View -> bool, plan: seq<seq<Step>>)
    ensures InplaceFound(rs, p, o, digest, pred, plan) == Filter(Passing(rs, p, o, digest), pred) <==>
            NoneKeptBehindFrozen(rs, p, o, digest, pred, plan)
    decreases |rs|
  {
    hide RecordText, ViewOf, Kept, EndsAt, Passing, PlanBehind;
    if rs != [] {
      var q, kept := p + |RecordText(rs[0])|, Kept(rs[0], p, o, digest, pred);
      var first := if kept then [ViewOf(rs[0], p, o)] else [];
      var ends := EndsAt(rs[0], p, o, digest, pred, plan);
      var found := if ends then [] else InplaceFound(rs[1..], q, o, digest, pred, PlanBehind(kept, plan));
      InplaceFindsAllIff(rs[1..], q, o, digest, pred, PlanBehind(kept, plan));
      NoneKeptIff(rs[1..], q, o, digest, pred);
      PassingSplits(rs, p, o, digest, pred);
      SameTail(first, found, Filter(Passing(rs[1..], q, o, digest), pred));
      assert InplaceFound(rs, p, o, digest, pred, plan) == first + found;
    } else {
      NothingPasses(p, o, digest);
    }
  }

  lemma SameTail<T>(a: seq<T>, b: seq<T>, c: seq<T>)
    ensures a + b == a + c <==> b == c
  {
    assert (a + b)[|a|..] == b && (a + c)[|a|..] == c;
  }

  /** With verification, iterating in place finds no more than one record. */
  lemma {:induction false} InplaceFindsOne(rs: seq<ArchiveRecord>, p: nat, o: Options, digest: DigestOracle,
                                           pred: View -> bool, plan: seq<seq<Step>>)
    requires o.verifyDigests
    ensures |InplaceFound(rs, p, o, digest, pred, plan)| <= 1
    decreases |rs|
  {
    hide RecordText, ViewOf, StepsFor, KeepsStream, PlanBehind;
    if rs != [] {
      InplaceFindsOne(rs[1..], p + |RecordText(rs[0])|, o, digest, pred, PlanBehind(Kept(rs[0], p, o, digest, pred), plan));
    }
  }

  /** What follows a record in place, when it is not frozen. */
  method AdvanceInplace(rec: WarcRecord, stream: TrackedReader, o: Options, ghost rs: seq<ArchiveRecord>, ghost p: nat)
    returns (next: Inplace)
    requires Current(rec, stream, rs, p, o.quirks) && Fits(rs, o) && AllAnnounce(rs[1..], o.quirks)
    modifies rec.Repr()
    ensures rec.Valid() && rec.Repr() <= old(rec.Repr())
    ensures if old(rec.reader.Frozen?) || rs[1..] == [] then next == Ended
            else next == Updated && AtRecord(rec, stream, rs[1..], p + |RecordText(rs[0])|, o.quirks)
  {
    hide HeadOf, GoodRecord, HeadAt, Holds, HeadTooLong, ArchiveText, RecordText, BlockScan, TakesLength;
    ghost var e := PayloadEnd(rs[0], p);
    ArchiveNext(stream.data, p, rs, o.quirks, o.maxHeaderLen);
    if rs[1..] != [] {
      LeftoverHidden(stream.data, e, o.quirks, rec.contentLength, rs[1], p + |RecordText(rs[0])|);
    } else {
      NoLeftover(stream.data, e, o.quirks, rec.contentLength);
    }
    rec.AnchoredNext(e);
    next := rec.NextInplace(o.maxHeaderLen);
  }

  /**
   Prepares the record at hand, looks at it, lets the caller use it if it is to be
   returned, and reads the next one into the same object.
   */
  method StepInplace(rec: WarcRecord, stream: TrackedReader, o: Options, digest: Digest, pred: View -> bool, plan: seq<seq<Step>>,
                     ghost rs: seq<ArchiveRecord>, ghost p: nat, ghost before: set<object>)
    returns (keep: bool, sight: View, next: Inplace, ghost owned: set<object>)
    requires rec.Valid() && AtRecord(rec, stream, rs, p, o.quirks) && Fits(rs, o) && AllAnnounce(rs[1..], o.quirks)
    requires rec.Repr() <= before + {stream}
    modifies rec.Repr()
    ensures rec.Valid() && rec.Repr() <= owned + {stream} && fresh(owned - before)
    ensures (keep <==> Passes(digest, o) && pred(ViewOf(rs[0], p, o))) && (keep ==> sight == ViewOf(rs[0], p, o))
    ensures if Freezes(digest, o) || !KeepsStream(StepsFor(keep, plan)) || rs[1..] == [] then next == Ended
            else next == Updated && AtRecord(rec, stream, rs[1..], p + |RecordText(rs[0])|, o.quirks)
  {
    hide Fits, AtRecord, RecordText, ViewOf, Look, AllAnnounce, Holds, ArchiveText, WarcRecord.Anchored, KeepsStream;
    IsFirst(rec, stream, rs, p, o.quirks);
    OwnsItself(rec);
    ghost var first := rec.Repr();
    var ready;
    keep, ready := Prepare(rec, stream, o, digest, rs, p);
    sight := Look(rec);
    owned := before + (rec.Repr() - first);
    keep := keep && pred(sight);
    NothingBaked();
    if keep && |plan| > 0 {
      owned := UseRecord(rec, stream, o, plan[0], rs, p, owned);
    }
    next := AdvanceInplace(rec, stream, o, rs, p);
  }

  lemma NothingBaked()
    ensures KeepsStream([])
  {
  }

  /**
   Iterates an archive in place, with digest verification, HTTP parsing and a
   filter. `plan` tells what is done with each record that is returned. A record
   that is frozen, by comparing its digest or by the caller, ends the iteration.
   */
  method InplaceIterate(stream: TrackedReader, o: Options, digest: DigestOracle, pred: View -> bool, plan: seq<seq<Step>>,
                        ghost rs: seq<ArchiveRecord>)
    returns (seen: seq<View>, failed: bool)
    requires stream.Valid() && stream.pos == 0 && stream.data == ArchiveText(rs) && Fits(rs, o)
    requires rs != [] ==> AllAnnounce(rs[1..], o.quirks)
    modifies stream
    ensures !failed && seen == InplaceFound(rs, 0, o, digest, pred, plan)
  {
    hide GoodRecord, HeadFits, RecordText, AtRecord, ArchiveText, HeadOf, WarcRecord.Repr, WarcRecord.Valid, BlockScan,
      TakesLength, ViewOf, Passes, Freezes, Fits, AllAnnounce, InplaceFound, StepsFor, KeepsStream;
    seen := [];
    InplaceBegins(rs, o, digest, pred, plan);
    var first := Begin(stream, o.quirks, o.maxHeaderLen, rs);
    if !first.Record? {
      return seen, first.Failed?;
    }
    var rec, next, left := first.record, Updated, plan;
    ghost var todo, p: nat, done := rs, 0, false;
    ghost var owned := rec.Repr() - {stream};
    IsFirst(rec, stream, rs, 0, o.quirks);
    while next == Updated
      invariant rec.Valid() && fresh(owned) && rec.Repr() <= owned + {stream}
      invariant if done then next == Ended else next == Updated && AtRecord(rec, stream, todo, p, o.quirks)
      invariant !done ==> todo != [] && Fits(todo, o) && AllAnnounce(todo[1..], o.quirks)
      invariant InplaceFound(rs, 0, o, digest, pred, plan) ==
                seen + if done then [] else InplaceFound(todo, p, o, digest, pred, left)
      decreases if done then 0 else |todo|
    {
      IsFirst(rec, stream, todo, p, o.quirks);
      FitsRest(todo, o);
      InplaceSteps(seen, todo, p, o, digest, pred, left);
      var keep, sight;
      keep, sight, next, owned := StepInplace(rec, stream, o, digest(rec.streamPos), pred, left, todo, p, owned);
      done := EndsAt(todo[0], p, o, digest, pred, left) || |todo| == 1;
      if !done {
        AnnounceRest(todo, o.quirks);
      }
      seen := seen + if keep then [sight] else [];
      left := PlanBehind(keep, left);
      p := p + |RecordText(todo[0])|;
      todo := todo[1..];
    }
    failed := next.Broken?;
  }

  lemma InplaceSteps(seen: seq<View>, rs: seq<ArchiveRecord>, p: nat, o: Options, digest: DigestOracle, pred: View -> bool,
                     plan: seq<seq<Step>>)
    requires rs != []
    ensures var kept := Kept(rs[0], p, o, digest, pred);
            seen + InplaceFound(rs, p, o, digest, pred, plan) ==
            seen + (if kept then [ViewOf(rs[0], p, o)] else [])
            + (if EndsAt(rs[0], p, o, digest, pred, plan) || |rs| == 1 then []
               else InplaceFound(rs[1..], p + |RecordText(rs[0])|, o, digest, pred, PlanBehind(kept, plan)))
  {
    hide RecordText, ViewOf, Kept, EndsAt, PlanBehind;
    var kept := Kept(rs[0], p, o, digest, pred);
    var first := if kept then [ViewOf(rs[0], p, o)] else [];
    var found := if EndsAt(rs[0], p, o, digest, pred, plan) then []
                 else InplaceFound(rs[1..], p + |RecordText(rs[0])|, o, digest, pred, PlanBehind(kept, plan));
    assert InplaceFound(rs, p, o, digest, pred, plan) == first + found;
    assert |rs| == 1 ==> found == [];
    Regroup(seen, first, found);
  }

  lemma Regroup<T>(a: seq<T>, b: seq<T>, c: seq<T>)
    ensures a + (b + c) == a + b + c
  {
  }

  lemma AnnounceRest(rs: seq<ArchiveRecord>, quirks: bool)
    requires |rs| > 1 && AllAnnounce(rs[1..], quirks)
    ensures AllAnnounce(rs[1..][1..], quirks)
  {
    hide TakesLength, BlockScan;
  }

  lemma InplaceBegins(rs: seq<ArchiveRecord>, o: Options, digest: DigestOracle, pred: View -> bool, plan: seq<seq<Step>>)
    requires Fits(rs, o)
    ensures GoodArchive(rs, o.quirks) && HeadsFit(rs, o.maxHeaderLen)
    ensures rs == [] ==> InplaceFound(rs, 0, o, digest, pred, plan) == []
    ensures forall s: seq<View> :: [] + s == s && s + [] == s
  {
    hide GoodRecord, HeadFits;
  }
}

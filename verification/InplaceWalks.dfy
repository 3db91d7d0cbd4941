/**
 Iterating any stream in place (fastwarc-rs/src/warc/record.rs): which heads are
 found, and when they are those that fresh records find, although the content
 length of the record before is not reset.
 */
module InplaceWalks {
  import opened Wrappers
  import opened ByteStrings
  import opened Readers
  import opened HeaderScan
  import opened HeaderText
  import opened HeaderCache
  import opened HeaderMaps
  import opened RecordHead
  import opened ArchiveFormat
  import opened Records
  import opened Archives
  import opened Rewriting

  /** Where the search for the next head starts. */
  function NextAt(s: bytes, h: Head): (p: nat) {
    Min(h.body + h.fields.contentLength, |s|)
  }

  /**
   What an iteration from `p` on reports, and whether it ends in a failure. In
   place, the content length `c` of the record before is not reset.
   */
  function Walk(s: bytes, p: nat, quirks: bool, inplace: bool, c: nat): (r: (seq<Seen>, bool))
    decreases |s| - p
  {
    match HeadAt(s, p, quirks, NO_FIELDS.(contentLength := if inplace then c else 0))
    case AtEnd => ([], false)
    case Malformed => ([], true)
    case Found(h) =>
      var rest := Walk(s, NextAt(s, h), quirks, inplace, h.fields.contentLength);
      ([SeenOf(h)] + rest.0, rest.1)
  }

  /** No head the iteration in place comes to meets the header limit. */
  predicate WalkFits(s: bytes, p: nat, quirks: bool, c: nat, max: nat)
    decreases |s| - p
  {
    match HeadAt(s, p, quirks, NO_FIELDS.(contentLength := c))
    case Found(h) => !HeadTooLong(s, p, quirks, max) && WalkFits(s, NextAt(s, h), quirks, h.fields.contentLength, max)
    case _ => true
  }

  /** A limit of twice the text is never met. */
  lemma {:induction false} WideLimitFits(s: bytes, p: nat, quirks: bool, c: nat, max: nat)
    requires 2 * |s| <= max
    ensures WalkFits(s, p, quirks, c, max)
    decreases |s| - p
  {
    hide HeadAt, HeadTooLong;
    NeverTooLong(s, p, quirks, max);
    var found := HeadAt(s, p, quirks, NO_FIELDS.(contentLength := c));
    if found.Found? {
      WideLimitFits(s, NextAt(s, found.head), quirks, found.head.fields.contentLength, max);
    }
  }

  lemma NeverTooLong(s: bytes, p: nat, quirks: bool, max: nat)
    requires 2 * |s| <= max
    ensures !HeadTooLong(s, p, quirks, max)
  {
    hide Scan, LineEnd;
    var f := FindVersion(s, p, quirks);
    if f.VersionAt? {
      var t := TaskOf(SeededMap(Text(s, f.start, f.end)), FieldsParse(s, f.end, quirks));
      assert t.start <= t.goal.pos <= |s|;
    }
  }

  // ------------------------------------------------------------------
  // When it makes no difference
  // ------------------------------------------------------------------

  /** Every record behind a non-empty one announces its length where the reader looks for it; `c` is what is left over. */
  predicate LengthsShow(s: bytes, p: nat, quirks: bool, c: nat)
    decreases |s| - p
  {
    match HeadAt(s, p, quirks, NO_FIELDS)
    case Found(h) =>
      && (c == 0 || TakesLength(h.headers.block.headers, 0))
      && LengthsShow(s, NextAt(s, h), quirks, h.fields.contentLength)
    case _ => true
  }

  /** A left over length changes the head exactly when the record announces none. */
  lemma LeftoverHead(s: bytes, p: nat, quirks: bool, c: nat)
    ensures var clean, kept := HeadAt(s, p, quirks, NO_FIELDS), HeadAt(s, p, quirks, NO_FIELDS.(contentLength := c));
            if !clean.Found? then kept == clean
            else
              && kept.Found? && (c == 0 || TakesLength(clean.head.headers.block.headers, 0) ==> kept == clean)
              && (c != 0 && !TakesLength(clean.head.headers.block.headers, 0) ==>
                    kept.head.fields.contentLength == c && clean.head.fields.contentLength == 0)
  {
    hide FindVersion, ApplyOp, TaskOf, TakeFields, TakesLength;
    var found := HeadAt(s, p, quirks, NO_FIELDS);
    if found.Found? {
      LengthTaken(found.head.headers.block.headers, 0, NO_FIELDS, c);
      assert NO_FIELDS.(contentLength := 0) == NO_FIELDS;
    }
  }

  /** Iterating in place reports what iterating with fresh records reports exactly in that case. */
  lemma {:induction false} InplaceAgreesIff(s: bytes, p: nat, quirks: bool, c: nat)
    ensures Walk(s, p, quirks, true, c) == Walk(s, p, quirks, false, c) <==> LengthsShow(s, p, quirks, c)
    decreases |s| - p
  {
    hide HeadAt, TakesLength;
    LeftoverHead(s, p, quirks, c);
    assert NO_FIELDS.(contentLength := 0) == NO_FIELDS;
    var found := HeadAt(s, p, quirks, NO_FIELDS);
    if found.Found? {
      var h := found.head;
      var kept := HeadAt(s, p, quirks, NO_FIELDS.(contentLength := c)).head;
      if c == 0 || TakesLength(h.headers.block.headers, 0) {
        InplaceAgreesIff(s, NextAt(s, h), quirks, h.fields.contentLength);
        var a := Walk(s, NextAt(s, h), quirks, true, h.fields.contentLength);
        var b := Walk(s, NextAt(s, h), quirks, false, h.fields.contentLength);
        assert ([SeenOf(h)] + a.0)[1..] == a.0 && ([SeenOf(h)] + b.0)[1..] == b.0;
      } else {
        assert Walk(s, p, quirks, true, c).0[0] == SeenOf(kept);
        assert Walk(s, p, quirks, false, c).0[0] == SeenOf(h);
      }
    }
  }

  // ------------------------------------------------------------------
  // Well-formed archives
  // ------------------------------------------------------------------

  /** The walk depends on the head that is found. */
  lemma SameHeadSameWalk(s: bytes, p: nat, q: nat, quirks: bool, c: nat)
    requires HeadAt(s, p, quirks, NO_FIELDS) == HeadAt(s, q, quirks, NO_FIELDS)
    ensures Walk(s, p, quirks, false, c) == Walk(s, q, quirks, false, c)
    ensures LengthsShow(s, p, quirks, c) == LengthsShow(s, q, quirks, c)
  {
    hide HeadAt, TakesLength;
    assert NO_FIELDS.(contentLength := 0) == NO_FIELDS;
  }

  /** Every record behind a non-empty payload announces its length, the first one if `c` is left over. */
  predicate Announcing(rs: seq<ArchiveRecord>, quirks: bool, c: nat) {
    rs != [] ==>
      && (c == 0 || TakesLength(BlockScan(rs[0], quirks).state.block.headers, 0))
      && Announcing(rs[1..], quirks, |rs[0].payload|)
  }

  /** The `i`-th record announces its length, or nothing is left over in front of it. */
  predicate AnnouncesAt(rs: seq<ArchiveRecord>, quirks: bool, c: nat, i: nat)
    requires i < |rs|
  {
    (if i == 0 then c == 0 else rs[i - 1].payload == []) || TakesLength(BlockScan(rs[i], quirks).state.block.headers, 0)
  }

  lemma {:induction false} AnnouncingIff(rs: seq<ArchiveRecord>, quirks: bool, c: nat)
    ensures Announcing(rs, quirks, c) <==> forall i :: 0 <= i < |rs| ==> AnnouncesAt(rs, quirks, c, i)
  {
    hide TakesLength, BlockScan;
    if rs != [] {
      var tl, d := rs[1..], |rs[0].payload|;
      AnnouncingIff(tl, quirks, d);
      assert forall i :: 0 < i < |rs| ==>
               rs[i] == tl[i - 1] && (AnnouncesAt(rs, quirks, c, i) <==> AnnouncesAt(tl, quirks, d, i - 1));
      if forall i :: 0 <= i < |rs| ==> AnnouncesAt(rs, quirks, c, i) {
        forall i | 0 <= i < |tl| ensures AnnouncesAt(tl, quirks, d, i) {
          assert AnnouncesAt(rs, quirks, c, i + 1);
        }
        assert AnnouncesAt(rs, quirks, c, 0);
      }
    }
  }

  /** In an archive, fresh records find its records, and the lengths show as its records announce them. */
  lemma {:induction false} ArchiveWalk(s: bytes, p: nat, rs: seq<ArchiveRecord>, quirks: bool, c: nat)
    requires Holds(s, p, ArchiveText(rs)) && GoodArchive(rs, quirks)
    ensures Walk(s, p, quirks, false, c) == (Report(rs, p, quirks), false)
    ensures LengthsShow(s, p, quirks, c) <==> Announcing(rs, quirks, c)
    decreases |rs|
  {
    hide HeadAt, HeadOf, GoodRecord, ArchiveText, Holds, RecordText, Report, TakesLength, HeadTooLong;
    assert NO_FIELDS.(contentLength := 0) == NO_FIELDS;
    var max := SumOf(rs);
    SumFits(rs);
    ArchiveHead(s, p, rs, quirks, max);
    if rs == [] {
      NothingToReport(p, quirks);
    } else {
      var e, q := PayloadEnd(rs[0], p), p + |RecordText(rs[0])|;
      FirstHeadFacts(s, p, rs, quirks);
      FirstIsGood(rs, quirks, max);
      ArchiveNext(s, p, rs, quirks, max);
      RecordEndSkipped(s, e, ArchiveText(rs[1..]), quirks, NO_FIELDS);
      RecordTextSplits(rs[0], []);
      SameHeadSameWalk(s, e, q, quirks, |rs[0].payload|);
      ArchiveWalk(s, q, rs[1..], quirks, |rs[0].payload|);
      ReportSplits([], rs, p, quirks);
      Unprefixed(SeenOf(HeadOf(rs[0], p, quirks)), Report(rs, p, quirks), Report(rs[1..], q, quirks));
    }
  }

  lemma Unprefixed(first: Seen, all: seq<Seen>, rest: seq<Seen>)
    requires [] + all == [] + [first] + rest
    ensures all == [first] + rest
  {
    assert [] + all == all && [] + [first] == [first];
  }

  /** A header limit that fits all records. */
  function SumOf(rs: seq<ArchiveRecord>): (n: nat) {
    if rs == [] then 0 else |rs[0].version| + 2 * |rs[0].block| + SumOf(rs[1..])
  }

  lemma {:induction false} SumFits(rs: seq<ArchiveRecord>)
    ensures HeadsFit(rs, SumOf(rs))
  {
    if rs != [] {
      SumFits(rs[1..]);
      assert forall i :: 0 < i < |rs| ==> rs[i] == rs[1..][i - 1];
    }
  }

  lemma FirstHeadFacts(s: bytes, p: nat, rs: seq<ArchiveRecord>, quirks: bool)
    requires rs != [] && GoodArchive(rs, quirks) && BodyAt(s, p, rs)
    ensures var h := HeadOf(rs[0], p, quirks);
            && NextAt(s, h) == PayloadEnd(rs[0], p) && h.fields.contentLength == |rs[0].payload|
            && h.headers.block.headers == BlockScan(rs[0], quirks).state.block.headers
  {
    hide BlockScan, GoodVersion, ArchiveText, TakeFields;
    HeadBody(rs[0], p, quirks);
    BodyEnds(s, p, rs);
  }

  /** Iterating an archive in place reports its records exactly when each one behind a payload announces its length. */
  lemma InplaceReportsAllIff(rs: seq<ArchiveRecord>, quirks: bool)
    requires GoodArchive(rs, quirks)
    ensures Walk(ArchiveText(rs), 0, quirks, true, 0) == (Report(rs, 0, quirks), false) <==>
            forall i :: 0 <= i < |rs| ==> AnnouncesAt(rs, quirks, 0, i)
  {
    hide Walk, LengthsShow, Announcing, ArchiveText, GoodArchive, Report, AnnouncesAt;
    var s := ArchiveText(rs);
    HoldsAll(s);
    ArchiveWalk(s, 0, rs, quirks, 0);
    InplaceAgreesIff(s, 0, quirks, 0);
    AnnouncingIff(rs, quirks, 0);
  }

  /** An empty record without Content-Length behind a byte of payload: in place it gets the length of the other. */
  lemma SilentRecord(quirks: bool)
    ensures var rs := [PlainRecord([120]), ArchiveRecord(Ascii("WARC/1.1") + CRLF, CRLF, [])];
            GoodArchive(rs, quirks) && Walk(ArchiveText(rs), 0, quirks, true, 0) != (Report(rs, 0, quirks), false)
  {
    hide GoodRecord, GoodVersion, Walk, ArchiveText, PlainRecord, Report;
    var first, v := PlainRecord([120]), Ascii("WARC/1.1") + CRLF;
    var second := ArchiveRecord(v, CRLF, []);
    PlainRecordIsGood([120], quirks);
    PlainVersionIsGood();
    NoFieldsSafe(quirks);
    WrittenRecordIsGoodIff(v, [], [], quirks);
    PlainPayload([120]);
    var rs := [first, second];
    assert rs[0] == first && rs[1] == second && rs[0].payload != [];
    InplaceReportsAllIff(rs, quirks);
    assert !TakesLength([], 0) && !AnnouncesAt(rs, quirks, 0, 1);
  }

  lemma NoFieldsSafe(quirks: bool)
    ensures SafeFields([], quirks) && FieldsText([]) == CRLF && TakeFields([], 0, NO_FIELDS).contentLength == 0
  {
  }

  lemma PlainPayload(payload: bytes)
    ensures PlainRecord(payload).payload == payload
  {
  }

  // ------------------------------------------------------------------
  // The iteration
  // ------------------------------------------------------------------

  lemma FreshNext(rec: WarcRecord, h: Head, stream: TrackedReader, quirks: bool)
    requires rec.Valid() && rec.IsFresh(h, stream, quirks) && h.body <= |stream.data|
    ensures rec.NextStart() == NextAt(stream.data, h) && rec.contentLength == h.fields.contentLength
    ensures Seen(rec.streamPos, rec.Given(), rec.headers.raw) == SeenOf(h)
  {
  }

  lemma WalkSteps(s: bytes, p: nat, quirks: bool, c: nat, seen: seq<Seen>)
    ensures var found, w := HeadAt(s, p, quirks, NO_FIELDS.(contentLength := c)), Walk(s, p, quirks, true, c);
            if found.Found? then
              var rest := Walk(s, NextAt(s, found.head), quirks, true, found.head.fields.contentLength);
              (seen + w.0, w.1) == (seen + [SeenOf(found.head)] + rest.0, rest.1)
            else (seen + w.0, w.1) == (seen, found.Malformed?)
  {
    hide HeadAt;
    var found := HeadAt(s, p, quirks, NO_FIELDS.(contentLength := c));
    if found.Found? {
      var rest := Walk(s, NextAt(s, found.head), quirks, true, found.head.fields.contentLength);
      assert seen + ([SeenOf(found.head)] + rest.0) == seen + [SeenOf(found.head)] + rest.0;
    } else {
      assert seen + [] == seen;
    }
  }

  /** Iterates a stream in place: exactly the heads of the walk are reported. */
  method IterateAnyInplace(stream: TrackedReader, quirks: bool, maxHeaderLen: nat) returns (seen: seq<Seen>, failed: bool)
    requires stream.Valid()
    modifies stream
    ensures WalkFits(stream.data, old(stream.pos), quirks, 0, maxHeaderLen) ==>
              (seen, failed) == Walk(stream.data, old(stream.pos), quirks, true, 0)
  {
    hide HeadAt, HeadTooLong, HeaderMap.Abs, HeaderMap.Content, HeaderMap.Valid, TrackedReader.Valid, SeenOf;
    ghost var s, from := stream.data, stream.pos;
    var rec := new WarcRecord(stream, quirks);
    seen := [];
    assert [] + Walk(s, from, quirks, true, 0).0 == Walk(s, from, quirks, true, 0).0;
    while true
      invariant rec.Valid() && rec.reader.Original? && rec.Stream() == stream && rec.quirksMode == quirks
      invariant fresh(rec.Repr() - {stream})
      invariant WalkFits(s, from, quirks, 0, maxHeaderLen) ==>
                  && WalkFits(s, rec.NextStart(), quirks, rec.contentLength, maxHeaderLen)
                  && var rest := Walk(s, rec.NextStart(), quirks, true, rec.contentLength);
                  Walk(s, from, quirks, true, 0) == (seen + rest.0, rest.1)
      decreases |s| - rec.NextStart()
    {
      ghost var found := HeadAt(s, rec.NextStart(), quirks, NO_FIELDS.(contentLength := rec.contentLength));
      WalkSteps(s, rec.NextStart(), quirks, rec.contentLength, seen);
      var next := rec.NextInplace(maxHeaderLen);
      if next != Updated {
        failed := next == Broken;
        break;
      }
      FreshNext(rec, found.head, stream, quirks);
      seen := seen + [Seen(rec.streamPos, rec.Given(), rec.headers.raw)];
    }
  }
}

/**
 Well-formed archives: records one after the other, each a version line, a header
 block, the payload its Content-Length announces, and two line ends. The heads
 that are found in such a text are those of its records.
 */
module ArchiveFormat {
  import opened Wrappers
  import opened ByteStrings
  import opened Readers
  import opened HeaderScan
  import opened HeaderText
  import opened HeaderCache
  import opened RecordHead

  datatype ArchiveRecord = ArchiveRecord(version: bytes, block: bytes, payload: bytes)

  function RecordText(r: ArchiveRecord): (t: bytes) {
    r.version + r.block + r.payload + RECORD_END
  }

  function ArchiveText(rs: seq<ArchiveRecord>): (t: bytes) {
    if rs == [] then [] else RecordText(rs[0]) + ArchiveText(rs[1..])
  }

  // ------------------------------------------------------------------
  // Well-formedness
  // ------------------------------------------------------------------

  predicate GoodVersion(v: bytes) {
    && 0 < |v| <= MAX_FIRST_LINE && v[|v| - 1] == LF
    && (forall i :: 0 <= i < |v| - 1 ==> v[i] != LF)
    && TrimEnd(v) != [] && IsVersionLine(TrimEnd(v))
  }

  /** What the header block says. */
  function BlockScan(r: ArchiveRecord, quirks: bool): Scanned {
    Scan(ScanState(Block(Some(Trim(r.version)), []), false), r.block, 0, |r.block|, quirks)
  }

  function FieldsOf(r: ArchiveRecord, quirks: bool): Fields {
    TakeFields(BlockScan(r, quirks).state.block.headers, 0, NO_FIELDS)
  }

  predicate GoodRecord(r: ArchiveRecord, quirks: bool) {
    && GoodVersion(r.version)
    && BlockScan(r, quirks).complete && BlockScan(r, quirks).pos == |r.block|
    && FieldsOf(r, quirks).contentLength == |r.payload|
  }

  predicate GoodArchive(rs: seq<ArchiveRecord>, quirks: bool) {
    forall i :: 0 <= i < |rs| ==> GoodRecord(rs[i], quirks)
  }

  /** A header limit that does not get in the way, however the head is buffered. */
  predicate HeadFits(r: ArchiveRecord, maxHeaderLen: nat) {
    |r.version| + 2 * |r.block| <= maxHeaderLen
  }

  predicate HeadsFit(rs: seq<ArchiveRecord>, maxHeaderLen: nat) {
    forall i :: 0 <= i < |rs| ==> HeadFits(rs[i], maxHeaderLen)
  }

  /**
   What is parsed behind a version line can be cached safely exactly when that
   line ends with the terminator of the parser's mode.
   */
  lemma VersionSeedRescans(v: bytes, quirks: bool)
    requires GoodVersion(v)
    ensures SeedRescans(SeededMap(v), quirks) <==> EndsInEol(v, quirks)
  {
    hide PushLine, IsVersionLine, TrimEnd;
    if EndsInEol(v, quirks) {
      FirstEolIsLast(v, 0, quirks);
      TrimEndEmpty(v);
      var st := ScanState(EMPTY_BLOCK, true);
      assert v[0..|v|] == v;
      StatusLineSets(st, v);
      ScanNothing(PushLine(st, v), v, |v|, |v|, quirks);
    }
  }

  lemma StatusLineSets(st: ScanState, v: bytes)
    requires st.expectStatus
    ensures PushLine(st, v) == ScanState(Block(Some(Trim(v)), st.block.headers), false)
  {
    hide Trim;
  }

  lemma {:induction false} FirstEolIsLast(v: bytes, p: nat, quirks: bool)
    requires EndsInEol(v, quirks) && p + SepLen(quirks) <= |v| && forall i :: 0 <= i < |v| - 1 ==> v[i] != LF
    ensures NextEol(v, p, |v|, quirks) == Some(|v|)
    decreases |v| - p
  {
    if p + SepLen(quirks) < |v| {
      FirstEolIsLast(v, p + 1, quirks);
    }
  }

  /** The head of a record that starts at `p`. */
  function HeadOf(r: ArchiveRecord, p: nat, quirks: bool): Head {
    Head(MapState(false, r.version + r.block, BlockScan(r, quirks).state.block), FieldsOf(r, quirks),
         p, p + |r.version| + |r.block|)
  }

  function PayloadEnd(r: ArchiveRecord, p: nat): nat {
    p + |r.version| + |r.block| + |r.payload|
  }

  /** The heads of all records, the first one starting at `p`. */
  function HeadsOf(rs: seq<ArchiveRecord>, p: nat, quirks: bool): (hs: seq<Head>)
    ensures |hs| == |rs|
  {
    if rs == [] then []
    else [HeadOf(rs[0], p, quirks)] + HeadsOf(rs[1..], p + |RecordText(rs[0])|, quirks)
  }

  // ------------------------------------------------------------------
  // Finding the records
  // ------------------------------------------------------------------

  /** A line whose only LF is its last byte is read as one. */
  lemma LineIs(s: bytes, p: nat, line: bytes)
    requires p + |line| <= |s| && Text(s, p, p + |line|) == line && 0 < |line| <= MAX_FIRST_LINE
    requires line[|line| - 1] == LF && forall i :: 0 <= i < |line| - 1 ==> line[i] != LF
    ensures LineEnd(s, p, Min(p + MAX_FIRST_LINE, |s|)) == p + |line|
  {
    assert forall i :: 0 <= i < |line| ==> s[p + i] == line[i];
    assert forall j :: p <= j < p + |line| - 1 ==> s[j] == line[j - p];
    LineEndSkip(s, p, p + |line| - 1, Min(p + MAX_FIRST_LINE, |s|));
    assert s[p + (|line| - 1)] == LF;
  }

  lemma VersionFound(s: bytes, p: nat, v: bytes, rest: bytes, quirks: bool)
    requires Holds(s, p, v + rest) && GoodVersion(v)
    ensures FindVersion(s, p, quirks) == VersionAt(p, p + |v|) && Text(s, p, p + |v|) == v
    ensures Holds(s, p + |v|, rest)
  {
    hide IsVersionLine, TrimEnd, LineEnd, Text;
    HoldsRest(s, p, v, rest);
    LineIs(s, p, v);
  }

  lemma EmptyLineSkipped(s: bytes, p: nat, quirks: bool)
    requires p + 2 <= |s| && s[p] == CR && s[p + 1] == LF
    ensures FindVersion(s, p, quirks) == FindVersion(s, p + 2, quirks)
  {
    var cap := Min(p + MAX_FIRST_LINE, |s|);
    LineEndSkip(s, p, p + 1, cap);
    assert LineEnd(s, p, cap) == p + 2;
    TrimEndEmpty(Text(s, p, p + 2));
  }

  /** The two line ends behind a payload are skipped. */
  lemma RecordEndSkipped(s: bytes, p: nat, rest: bytes, quirks: bool, given: Fields)
    requires Holds(s, p, RECORD_END + rest)
    ensures HeadAt(s, p, quirks, given) == HeadAt(s, p + 4, quirks, given) && Holds(s, p + 4, rest)
    ensures forall max :: HeadTooLong(s, p, quirks, max) == HeadTooLong(s, p + 4, quirks, max)
  {
    HoldsRest(s, p, RECORD_END, rest);
    var t := RECORD_END + rest;
    assert s[p] == t[0] && s[p + 1] == t[1] && s[p + 2] == t[2] && s[p + 3] == t[3];
    EmptyLineSkipped(s, p, quirks);
    EmptyLineSkipped(s, p + 2, quirks);
  }

  /** Parsing behind the version line of a well-formed record reads exactly its block. */
  lemma BlockParsed(s: bytes, b: nat, r: ArchiveRecord, rest: bytes, quirks: bool)
    requires Holds(s, b, r.block + rest) && GoodRecord(r, quirks)
    ensures var seeded, op := SeededMap(r.version), FieldsParse(s, b, quirks);
            && TaskOf(seeded, op).seed == r.version && TaskOf(seeded, op).start == b
            && TaskOf(seeded, op).goal == Scanned(BlockScan(r, quirks).state, b + |r.block|, true)
            && ApplyOp(seeded, op) == MapState(false, r.version + r.block, BlockScan(r, quirks).state.block)
    ensures Holds(s, b + |r.block|, rest)
  {
    hide PushLine, Scan, IsVersionLine, TrimEnd, TakeFields, Trim;
    HoldsRest(s, b, r.block, rest);
    BlockTransfers(s, b, r.block, ScanState(Block(Some(Trim(r.version)), []), false), quirks);
  }

  /** The head found where a well-formed record starts is the head of that record. */
  lemma RecordFound(s: bytes, p: nat, r: ArchiveRecord, rest: bytes, quirks: bool)
    requires Holds(s, p, r.version + (r.block + rest)) && GoodRecord(r, quirks)
    ensures HeadAt(s, p, quirks, NO_FIELDS) == Found(HeadOf(r, p, quirks))
    ensures Holds(s, HeadOf(r, p, quirks).body, rest)
    ensures forall max :: HeadFits(r, max) ==> !HeadTooLong(s, p, quirks, max)
  {
    hide BlockScan, TakeFields, TaskOf, ApplyOp, FindVersion, GoodVersion;
    VersionFound(s, p, r.version, r.block + rest, quirks);
    BlockParsed(s, p + |r.version|, r, rest, quirks);
  }

  lemma BlockTransfers(s: bytes, b: nat, block: bytes, st: ScanState, quirks: bool)
    requires b + |block| <= |s| && Text(s, b, b + |block|) == block
    requires Scan(st, block, 0, |block|, quirks).complete && Scan(st, block, 0, |block|, quirks).pos == |block|
    ensures Scan(st, s, b, |s|, quirks) == Scanned(Scan(st, block, 0, |block|, quirks).state, b + |block|, true)
  {
    hide PushLine, Scan;
    assert SameText(block, 0, |block|, s, b);
    ScanTransfer(st, block, 0, |block|, s, b, |s|, quirks);
  }

  /** The length of the HTTP block at the start of a payload. */
  function HttpLength(payload: bytes, quirks: bool): (n: nat)
    ensures n <= |payload|
  {
    Scan(ScanState(EMPTY_BLOCK, true), payload, 0, |payload|, quirks).pos
  }

  /** The HTTP block at the start of a payload. */
  function HttpText(payload: bytes, quirks: bool): (t: bytes) {
    Text(payload, 0, HttpLength(payload, quirks))
  }

  /** An unfinished block reaches to the end of the text. */
  lemma {:induction false} UnfinishedToEnd(st: ScanState, s: bytes, p: nat, quirks: bool)
    requires p <= |s| && !Scan(st, s, p, |s|, quirks).complete
    ensures Scan(st, s, p, |s|, quirks).pos == |s|
    decreases |s| - p
  {
    hide PushLine, EndsBlock;
    if p < |s| && NextEol(s, p, |s|, quirks).Some? {
      var e := NextEol(s, p, |s|, quirks).value;
      UnfinishedToEnd(PushLine(st, s[p..e]), s, e, quirks);
    }
  }

  /** The HTTP block of a payload is found wherever the payload stands. */
  lemma HttpBlockAt(s: bytes, a: nat, b: nat, payload: bytes, quirks: bool)
    requires a <= b && (a < b ==> b <= |s|) && Text(s, a, b) == payload
    ensures var op := Parse(s, a, b, true, quirks);
            && TaskOf(EMPTY_MAP, op).goal.pos == a + HttpLength(payload, quirks)
            && ApplyOp(EMPTY_MAP, op).raw == HttpText(payload, quirks)
  {
    hide PushLine, Scan;
    var st := ScanState(EMPTY_BLOCK, true);
    var r := Scan(st, payload, 0, |payload|, quirks);
    if !r.complete {
      UnfinishedToEnd(st, payload, 0, quirks);
    }
    ScanTransfer(st, payload, 0, |payload|, s, a, b, quirks);
    assert Text(s, a, a + r.pos) == Text(payload, 0, r.pos);
  }

  /** Where the payload of a record that starts at `p` begins. */
  function PayloadStart(r: ArchiveRecord, p: nat): nat {
    p + |r.version| + |r.block|
  }

  /** The payload of the first record stands where its head says, and the rest of the archive follows. */
  ghost predicate BodyAt(s: bytes, p: nat, rs: seq<ArchiveRecord>)
    requires rs != []
  {
    && Text(s, PayloadStart(rs[0], p), PayloadEnd(rs[0], p)) == rs[0].payload
    && Holds(s, PayloadEnd(rs[0], p), RECORD_END + ArchiveText(rs[1..]))
  }

  /** What is found where the rest `rs` of an archive starts. */
  function FirstHead(rs: seq<ArchiveRecord>, p: nat, quirks: bool): HeadResult {
    if rs == [] then AtEnd else Found(HeadOf(rs[0], p, quirks))
  }

  lemma ArchiveHead(s: bytes, p: nat, rs: seq<ArchiveRecord>, quirks: bool, max: nat)
    requires Holds(s, p, ArchiveText(rs)) && GoodArchive(rs, quirks) && HeadsFit(rs, max)
    ensures HeadAt(s, p, quirks, NO_FIELDS) == FirstHead(rs, p, quirks)
    ensures rs != [] ==> BodyAt(s, p, rs)
    ensures rs != [] ==> !HeadTooLong(s, p, quirks, max)
  {
    hide *;
    if rs == [] {
      EmptyArchive(p, quirks);
      NothingFound(s, p, quirks);
    } else {
      var r, rest := rs[0], ArchiveText(rs[1..]);
      FirstIsGood(rs, quirks, max);
      ArchiveSplits(rs, p, quirks);
      RecordFound(s, p, r, r.payload + (RECORD_END + rest), quirks);
      BodyFound(s, p, rs, quirks);
    }
  }

  lemma EmptyArchive(p: nat, quirks: bool)
    ensures ArchiveText([]) == [] && FirstHead([], p, quirks) == AtEnd
  {
  }

  lemma ArchiveSplits(rs: seq<ArchiveRecord>, p: nat, quirks: bool)
    requires rs != []
    ensures var r, rest := rs[0], ArchiveText(rs[1..]);
            ArchiveText(rs) == r.version + (r.block + (r.payload + (RECORD_END + rest)))
    ensures FirstHead(rs, p, quirks) == Found(HeadOf(rs[0], p, quirks))
  {
    hide RecordText, HeadOf;
    RecordTextSplits(rs[0], ArchiveText(rs[1..]));
  }

  /** Where a record's head ends, its payload and the rest of the archive follow. */
  lemma BodyFound(s: bytes, p: nat, rs: seq<ArchiveRecord>, quirks: bool)
    requires rs != []
    requires Holds(s, HeadOf(rs[0], p, quirks).body, rs[0].payload + (RECORD_END + ArchiveText(rs[1..])))
    ensures BodyAt(s, p, rs)
  {
    hide HeadOf, ArchiveText, Holds;
    var r := rs[0];
    HeadBody(r, p, quirks);
    HoldsRest(s, PayloadStart(r, p), r.payload, RECORD_END + ArchiveText(rs[1..]));
  }

  lemma FirstIsGood(rs: seq<ArchiveRecord>, quirks: bool, max: nat)
    requires rs != [] && GoodArchive(rs, quirks) && HeadsFit(rs, max)
    ensures GoodRecord(rs[0], quirks) && HeadFits(rs[0], max)
    ensures GoodArchive(rs[1..], quirks) && HeadsFit(rs[1..], max)
  {
    hide GoodRecord, HeadFits;
  }

  lemma RecordTextSplits(r: ArchiveRecord, rest: bytes)
    ensures RecordText(r) + rest == r.version + (r.block + (r.payload + (RECORD_END + rest)))
    ensures |RecordText(r)| == |r.version| + |r.block| + |r.payload| + 4
  {
  }

  lemma NothingFound(s: bytes, p: nat, quirks: bool)
    requires Holds(s, p, [])
    ensures HeadAt(s, p, quirks, NO_FIELDS) == AtEnd
  {
  }

  lemma HeadBody(r: ArchiveRecord, p: nat, quirks: bool)
    ensures HeadOf(r, p, quirks).body == p + |r.version| + |r.block| && HeadOf(r, p, quirks).start == p
    ensures HeadOf(r, p, quirks).fields == FieldsOf(r, quirks) && HeadOf(r, p, quirks).headers.raw == r.version + r.block
  {
    hide BlockScan, TakeFields;
  }

  /** From the end of a payload, the next record is found behind the record end. */
  lemma ArchiveNext(s: bytes, p: nat, rs: seq<ArchiveRecord>, quirks: bool, max: nat)
    requires rs != [] && Holds(s, PayloadEnd(rs[0], p), RECORD_END + ArchiveText(rs[1..]))
    requires GoodArchive(rs[1..], quirks) && HeadsFit(rs[1..], max)
    ensures var q := p + |RecordText(rs[0])|;
            && HeadAt(s, PayloadEnd(rs[0], p), quirks, NO_FIELDS) == FirstHead(rs[1..], q, quirks)
            && Holds(s, q, ArchiveText(rs[1..]))
            && (rs[1..] != [] ==> BodyAt(s, q, rs[1..]))
    ensures rs[1..] != [] ==> !HeadTooLong(s, PayloadEnd(rs[0], p), quirks, max)
  {
    hide HeadOf, GoodRecord, HeadAt, FindVersion, Holds, HeadTooLong, ArchiveText;
    var e := PayloadEnd(rs[0], p);
    RecordTextSplits(rs[0], []);
    RecordEndSkipped(s, e, ArchiveText(rs[1..]), quirks, NO_FIELDS);
    ArchiveHead(s, e + 4, rs[1..], quirks, max);
  }

  // ------------------------------------------------------------------
  // Looking in the wrong place
  // ------------------------------------------------------------------

  lemma LineFeedSkipped(s: bytes, p: nat, quirks: bool)
    requires p < |s| && s[p] == LF
    ensures FindVersion(s, p, quirks) == FindVersion(s, p + 1, quirks)
  {
    assert LineEnd(s, p, Min(p + MAX_FIRST_LINE, |s|)) == p + 1;
    TrimEndEmpty(Text(s, p, p + 1));
  }

  /** The line ends between two records are skipped from anywhere inside. */
  lemma RecordEndIsSkipped(s: bytes, e: nat, rest: bytes, k: nat, quirks: bool)
    requires Holds(s, e, RECORD_END + rest) && k <= 4
    ensures FindVersion(s, e + k, quirks) == FindVersion(s, e + 4, quirks) && e + 4 <= |s| && Holds(s, e + 4, rest)
  {
    hide FindVersion;
    HoldsRest(s, e, RECORD_END, rest);
    var t := RECORD_END + rest;
    assert s[e] == t[0] && s[e + 1] == t[1] && s[e + 2] == t[2] && s[e + 3] == t[3];
    EmptyLineSkipped(s, e, quirks);
    LineFeedSkipped(s, e + 1, quirks);
    EmptyLineSkipped(s, e + 2, quirks);
    LineFeedSkipped(s, e + 3, quirks);
  }

  /** What is found depends on the version line that is found. */
  lemma SameVersionSameHead(s: bytes, p: nat, q: nat, quirks: bool, max: nat)
    requires FindVersion(s, p, quirks) == FindVersion(s, q, quirks) && p <= q
    ensures HeadAt(s, p, quirks, NO_FIELDS) == HeadAt(s, q, quirks, NO_FIELDS)
    ensures HeadTooLong(s, p, quirks, max) == HeadTooLong(s, q, quirks, max)
  {
    hide FindVersion, ApplyOp, TaskOf, TakeFields, LimitHit;
  }

  /** As long as the search for the next record starts inside the record end, the record is found. */
  lemma LateNext(s: bytes, e: nat, rs: seq<ArchiveRecord>, k: nat, quirks: bool, max: nat)
    requires Holds(s, e, RECORD_END + ArchiveText(rs)) && GoodArchive(rs, quirks) && HeadsFit(rs, max) && k <= 4
    ensures HeadAt(s, e + k, quirks, NO_FIELDS) == FirstHead(rs, e + 4, quirks) && e + k <= |s|
    ensures rs != [] ==> BodyAt(s, e + 4, rs) && !HeadTooLong(s, e + k, quirks, max)
  {
    hide *;
    RecordEndIsSkipped(s, e, ArchiveText(rs), k, quirks);
    SameVersionSameHead(s, e + k, e + 4, quirks, max);
    ArchiveHead(s, e + 4, rs, quirks, max);
  }

  /** The end of a version line is no version line. */
  lemma VersionEndIsNone(v: bytes, i: nat)
    requires IsVersionLine(v) && 0 < i < |v|
    ensures !IsVersionLine(v[i..])
  {
    assert Ascii("WARC/1.1")[0] == 87 && Ascii("WARC/1.0")[0] == 87 && Ascii("WARC/0.")[0] == 87;
    assert v[1] == 65 && v[2] == 82;
    assert v[i..][0] == v[i];
  }

  lemma {:induction false} TrimEndOfRest(v: bytes, i: nat)
    requires i < |TrimEnd(v)|
    ensures TrimEnd(v[i..]) == TrimEnd(v)[i..]
  {
    if IsSpace(v[|v| - 1]) {
      TrimEndOfRest(v[..|v| - 1], i);
      assert v[i..][..|v| - i - 1] == v[..|v| - 1][i..];
    }
  }

  /**
   Once the search starts inside the version line, the record is taken for garbage
   in strict mode; in quirks mode the line is skipped, and the search goes on
   inside the header block.
   */
  lemma LateNextIsLost(s: bytes, e: nat, rs: seq<ArchiveRecord>, k: nat, quirks: bool)
    requires rs != [] && Holds(s, e, RECORD_END + ArchiveText(rs)) && GoodArchive(rs, quirks)
    requires 4 < k < 4 + |TrimEnd(rs[0].version)|
    ensures var behind := e + 4 + |rs[0].version|;
            && e + k <= behind <= |s|
            && HeadAt(s, e + k, quirks, NO_FIELDS) == if quirks then HeadAt(s, behind, quirks, NO_FIELDS) else Malformed
  {
    hide *;
    var v, i := rs[0].version, k - 4;
    FirstRecordText(rs, quirks);
    TextFrom(s, e, v, ArchiveText(rs), i);
    VersionEndIsBad(s, e + k, v, i, quirks);
  }

  lemma TextFrom(s: bytes, e: nat, v: bytes, t: bytes, i: nat)
    requires v <= t && i <= |v| && Holds(s, e, RECORD_END + t)
    ensures e + 4 + |v| <= |s| && Text(s, e + 4 + i, e + 4 + |v|) == v[i..]
  {
    var u := RECORD_END + t;
    assert forall j :: i <= j < |v| ==> s[e + 4 + j] == u[4 + j] == v[j];
  }

  lemma VersionEndIsBad(s: bytes, p: nat, v: bytes, i: nat, quirks: bool)
    requires GoodVersion(v) && 0 < i < |TrimEnd(v)| && |TrimEnd(v)| <= |v|
    requires p + |v| - i <= |s| && Text(s, p, p + |v| - i) == v[i..]
    ensures HeadAt(s, p, quirks, NO_FIELDS) == if quirks then HeadAt(s, p + |v| - i, quirks, NO_FIELDS) else Malformed
  {
    hide IsVersionLine, TrimEnd, LineEnd, Text, ApplyOp, TaskOf, TakeFields;
    TrimEndOfRest(v, i);
    VersionEndIsNone(TrimEnd(v), i);
    LineIs(s, p, v[i..]);
    BadLineFound(s, p, v[i..], quirks);
  }

  /** A line that is neither empty nor a version line is not accepted in strict mode, and skipped in quirks mode. */
  lemma BadLineFound(s: bytes, p: nat, line: bytes, quirks: bool)
    requires p < |s| && LineEnd(s, p, Min(p + MAX_FIRST_LINE, |s|)) == p + |line| && Text(s, p, p + |line|) == line
    requires TrimEnd(line) != [] && !IsVersionLine(TrimEnd(line))
    ensures HeadAt(s, p, quirks, NO_FIELDS) == if quirks then HeadAt(s, p + |line|, quirks, NO_FIELDS) else Malformed
  {
    hide IsVersionLine, TrimEnd, LineEnd, Text, ApplyOp, TaskOf, TakeFields;
  }

  /** Behind the text nothing is found. */
  lemma NothingBehind(s: bytes, p: nat, quirks: bool)
    requires p >= |s|
    ensures HeadAt(s, p, quirks, NO_FIELDS) == AtEnd
  {
  }

  lemma FirstRecordText(rs: seq<ArchiveRecord>, quirks: bool)
    requires rs != [] && GoodArchive(rs, quirks)
    ensures var v := rs[0].version; v <= ArchiveText(rs) && GoodVersion(v) && |TrimEnd(v)| <= |v|
  {
    hide BlockScan, IsVersionLine;
    RecordTextSplits(rs[0], ArchiveText(rs[1..]));
  }
}

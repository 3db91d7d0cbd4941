/**
 What the head of a WARC record is (fastwarc-rs/src/warc/record.rs): the version
 line, found behind any number of empty lines, the header block behind it, and
 the three fields the reader acts on.
 */
module RecordHead {
  import opened Wrappers
  import opened ByteStrings
  import opened Readers
  import opened HeaderScan
  import opened HeaderEdits
  import opened HeaderText
  import opened HeaderCache
  import opened Numerals

  datatype RecordType =
    | WarcInfo | Response | Resource | Request | Metadata | Revisit | Conversion | Continuation
    | Unknown | NoType

  /** The longest first line that is looked at. */
  const MAX_FIRST_LINE: nat := 256

  /** What separates a record from the next one. */
  const RECORD_END: bytes := [CR, LF, CR, LF]

  const WARC_TYPE := Ascii("WARC-Type")
  const CONTENT_TYPE := Ascii("Content-Type")
  const CONTENT_LENGTH := Ascii("Content-Length")
  const APPLICATION_HTTP := Ascii("application/http")

  /** WARC/1.0 and WARC/1.1, and one more character behind WARC/0. for old crawls. */
  predicate IsVersionLine(trimmed: bytes) {
    || trimmed == Ascii("WARC/1.1")
    || trimmed == Ascii("WARC/1.0")
    || (Ascii("WARC/0.") <= trimmed && |trimmed| <= 9)
  }

  function TypeOf(value: bytes): RecordType {
    var v := Lower(value);
    if v == Ascii("warcinfo") then WarcInfo
    else if v == Ascii("response") then Response
    else if v == Ascii("resource") then Resource
    else if v == Ascii("request") then Request
    else if v == Ascii("metadata") then Metadata
    else if v == Ascii("revisit") then Revisit
    else if v == Ascii("conversion") then Conversion
    else if v == Ascii("continuation") then Continuation
    else Unknown
  }

  predicate IsHttpType(value: bytes) {
    value == APPLICATION_HTTP || APPLICATION_HTTP + [59] <= value
  }

  function LengthOf(value: bytes): (r: nat)
    ensures r <= U64_MAX
  {
    var v := ParseUnsigned(value, Dec);
    if v.Some? then v.value else 0
  }

  // ------------------------------------------------------------------
  // The fields the reader acts on
  // ------------------------------------------------------------------

  datatype Fields = Fields(recordType: RecordType, isHttp: bool, contentLength: nat)

  const NO_FIELDS := Fields(NoType, false, 0)

  /** One field; the keys are compared exactly. The flag tells a hit. */
  function TakeField(h: Header, f: Fields): (r: (Fields, bool)) {
    if h.key == WARC_TYPE then (f.(recordType := TypeOf(h.value)), true)
    else if h.key == CONTENT_TYPE then (f.(isHttp := IsHttpType(h.value)), true)
    else if h.key == CONTENT_LENGTH then (f.(contentLength := LengthOf(h.value)), true)
    else (f, false)
  }

  /** The walk over the fields; it stops after three hits. */
  function TakeFields(hs: seq<Header>, hits: nat, f: Fields): (r: Fields) {
    if hs == [] || hits == 3 then f
    else
      var (g, hit) := TakeField(hs[0], f);
      TakeFields(hs[1..], if hit then hits + 1 else hits, g)
  }

  /** The walk reaches a Content-Length before it stops. */
  predicate TakesLength(hs: seq<Header>, hits: nat) {
    && hs != [] && hits != 3
    && (hs[0].key == CONTENT_LENGTH || TakesLength(hs[1..], if TakeField(hs[0], NO_FIELDS).1 then hits + 1 else hits))
  }

  /**
   A content length left over from the record before shows through exactly when
   the walk reaches no Content-Length.
   */
  lemma LeftoverLengthShows(hs: seq<Header>, c: nat)
    ensures TakeFields(hs, 0, NO_FIELDS.(contentLength := c)) == TakeFields(hs, 0, NO_FIELDS) <==> c == 0 || TakesLength(hs, 0)
  {
    LengthTaken(hs, 0, NO_FIELDS.(contentLength := c), 0);
  }

  lemma {:induction false} LengthTaken(hs: seq<Header>, hits: nat, f: Fields, c: nat)
    ensures var r, r' := TakeFields(hs, hits, f), TakeFields(hs, hits, f.(contentLength := c));
            if TakesLength(hs, hits) then r == r' else r'.contentLength == c && r == r'.(contentLength := f.contentLength)
    decreases |hs|
  {
    hide TypeOf, IsHttpType, LengthOf;
    if hs != [] && hits != 3 {
      KeysDiffer();
      var (g, hit) := TakeField(hs[0], f);
      LengthTaken(hs[1..], if hit then hits + 1 else hits, g, c);
    }
  }

  lemma KeysDiffer()
    ensures WARC_TYPE != CONTENT_LENGTH && CONTENT_TYPE != CONTENT_LENGTH && WARC_TYPE != CONTENT_TYPE
  {
    assert |WARC_TYPE| == 9 && |CONTENT_TYPE| == 12 && |CONTENT_LENGTH| == 14;
  }

  // ------------------------------------------------------------------
  // Finding the version line
  // ------------------------------------------------------------------

  datatype Search = VersionAt(start: nat, end: nat) | NoVersion | BadLine(start: nat)

  /** Skips empty lines, in quirks mode any line, up to the next version line. */
  function FindVersion(s: bytes, p: nat, quirks: bool): (r: Search)
    ensures r.VersionAt? ==> p <= r.start < r.end <= |s|
    decreases |s| - p
  {
    if p >= |s| then NoVersion
    else
      var e := LineEnd(s, p, Min(p + MAX_FIRST_LINE, |s|));
      var trimmed := TrimEnd(Text(s, p, e));
      LineEndAdvances(s, p, Min(p + MAX_FIRST_LINE, |s|));
      if trimmed == [] then FindVersion(s, e, quirks)
      else if IsVersionLine(trimmed) then VersionAt(p, e)
      else if quirks then FindVersion(s, e, quirks)
      else BadLine(p)
  }

  lemma LineEndAdvances(s: bytes, p: nat, cap: nat)
    requires p < cap <= |s|
    ensures p < LineEnd(s, p, cap)
  {
  }

  // ------------------------------------------------------------------
  // The head
  // ------------------------------------------------------------------

  /** The parsed head of a record: its header map, the fields acted on, and where head and body start. */
  datatype Head = Head(headers: MapState, fields: Fields, start: nat, body: nat)

  datatype HeadResult = Found(head: Head) | AtEnd | Malformed

  /** The header map seeded with a version line. */
  function SeededMap(line: bytes): (r: MapState) {
    MapState(false, line, Block(Some(Trim(line)), []))
  }

  /** The parse of the named fields behind the version line. */
  function FieldsParse(s: bytes, p: nat, quirks: bool): (op: HeaderOp) {
    Parse(s, p, |s|, false, quirks)
  }

  /** The head that is read from position `p` on, when fields not given are as in `given`. */
  function HeadAt(s: bytes, p: nat, quirks: bool, given: Fields): (r: HeadResult)
    ensures r.Found? ==> p <= r.head.start < r.head.body <= |s|
  {
    match FindVersion(s, p, quirks)
    case NoVersion => AtEnd
    case BadLine(_) => Malformed
    case VersionAt(a, b) =>
      var seeded := SeededMap(Text(s, a, b));
      var op := FieldsParse(s, b, quirks);
      var m := ApplyOp(seeded, op);
      Found(Head(m, TakeFields(m.block.headers, 0, given), a, TaskOf(seeded, op).goal.pos))
  }

  /** The header limit gets in the way of the head at `p`. */
  predicate HeadTooLong(s: bytes, p: nat, quirks: bool, maxHeaderLen: nat) {
    var f := FindVersion(s, p, quirks);
    && f.VersionAt?
    && LimitHit(TaskOf(SeededMap(Text(s, f.start, f.end)), FieldsParse(s, f.end, quirks)), maxHeaderLen)
  }
}

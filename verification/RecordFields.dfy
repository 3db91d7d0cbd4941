/**
 What the three fields say that a reader of WARC records acts on
 (fastwarc-rs/src/warc/record.rs): the record type by its name, HTTP content by
 its media type, and the length. Each is the last one given in front of where the
 reader stops.
 */
module RecordFields {
  import opened Wrappers
  import opened ByteStrings
  import opened Readers
  import opened HeaderScan
  import opened HeaderText
  import opened LaidOutHeaders
  import opened Numerals
  import opened RecordHead
  import opened ArchiveFormat
  import opened Archives
  import opened Rewriting

  // ------------------------------------------------------------------
  // Type names
  // ------------------------------------------------------------------

  /** The name a type is printed as. */
  function TypeName(t: RecordType): (r: bytes) {
    match t
    case WarcInfo => Ascii("warcinfo")
    case Response => Ascii("response")
    case Resource => Ascii("resource")
    case Request => Ascii("request")
    case Metadata => Ascii("metadata")
    case Revisit => Ascii("revisit")
    case Conversion => Ascii("conversion")
    case Continuation => Ascii("continuation")
    case Unknown => Ascii("unknown")
    case NoType => Ascii("unknown")
  }

  /** One of the eight types of the standard. */
  predicate Named(t: RecordType) {
    t != Unknown && t != NoType
  }

  lemma NamesAreLower(t: RecordType)
    ensures Lower(TypeName(t)) == TypeName(t)
  {
    assert forall i :: 0 <= i < |TypeName(t)| ==> LowerByte(TypeName(t)[i]) == TypeName(t)[i];
  }

  lemma NamesDiffer(t: RecordType, u: RecordType)
    requires Named(t) && Named(u) && TypeName(t) == TypeName(u)
    ensures t == u
  {
    assert |TypeName(t)| == |TypeName(u)| && TypeName(t)[0] == TypeName(u)[0];
    assert TypeName(t)[2] == TypeName(u)[2] && TypeName(t)[3] == TypeName(u)[3];
  }

  lemma TypeIsNamed(s: bytes)
    ensures var t := TypeOf(s); if Named(t) then Lower(s) == TypeName(t) else t == Unknown
    ensures !Named(TypeOf(s)) ==> forall t :: Named(t) ==> Lower(s) != TypeName(t)
  {
    hide Lower, Ascii;
  }

  /** A type is read from its name in any spelling of upper and lower case, and from nothing else. */
  lemma TypeOfIff(s: bytes, t: RecordType)
    requires Named(t)
    ensures TypeOf(s) == t <==> EqIgnoreCase(s, TypeName(t))
  {
    hide TypeOf, Lower, TypeName;
    NamesAreLower(t);
    TypeIsNamed(s);
    if Lower(s) == TypeName(t) {
      NamesDiffer(t, TypeOf(s));
    }
  }

  /** What is no name of a type is unknown, and nothing else is. */
  lemma UnknownIff(s: bytes)
    ensures TypeOf(s) == Unknown <==> forall t :: Named(t) ==> !EqIgnoreCase(s, TypeName(t))
  {
    hide TypeOf, Lower, TypeName;
    TypeIsNamed(s);
    forall t | Named(t)
      ensures Lower(TypeName(t)) == TypeName(t)
    {
      NamesAreLower(t);
    }
  }

  // ------------------------------------------------------------------
  // Media types and version lines
  // ------------------------------------------------------------------

  /** HTTP is the media type `application/http` alone or with parameters behind a semicolon. */
  lemma IsHttpTypeIff(s: bytes)
    ensures IsHttpType(s) <==>
            s == Ascii("application/http") || exists params: bytes :: s == Ascii("application/http;") + params
  {
    var a, b := APPLICATION_HTTP + [59], Ascii("application/http;");
    assert a == b;
    if a <= s {
      assert s == b + s[|b|..];
    }
  }

  /** The version lines of the standard, and those of old crawls. */
  lemma VersionLines()
    ensures IsVersionLine(Ascii("WARC/1.0")) && IsVersionLine(Ascii("WARC/1.1"))
    ensures IsVersionLine(Ascii("WARC/0.17")) && IsVersionLine(Ascii("WARC/0.18")) && IsVersionLine(Ascii("WARC/0.9"))
  {
    assert Ascii("WARC/0.17")[..7] == Ascii("WARC/0.") == Ascii("WARC/0.18")[..7] == Ascii("WARC/0.9")[..7];
  }

  lemma NoVersionLines()
    ensures !IsVersionLine(Ascii("WARC/2.0")) && !IsVersionLine(Ascii("warc/1.0")) && !IsVersionLine(Ascii("WARC/0.175"))
  {
    assert Ascii("WARC/2.0")[5] == 50 && Ascii("warc/1.0")[0] == 119 && |Ascii("WARC/0.175")| == 10;
    assert Ascii("WARC/1.0")[0] == 87 && Ascii("WARC/1.1")[0] == 87 && Ascii("WARC/0.")[0] == 87;
    assert Ascii("WARC/1.0")[5] == 49 && Ascii("WARC/1.1")[5] == 49 && Ascii("WARC/0.")[5] == 48;
  }

  // ------------------------------------------------------------------
  // What the reader reaches
  // ------------------------------------------------------------------

  predicate ActedOn(key: bytes) {
    key == WARC_TYPE || key == CONTENT_TYPE || key == CONTENT_LENGTH
  }

  /** The fields up to the one that uses up the room for those acted on. */
  function Reached(hs: seq<Header>, room: nat): (r: seq<Header>) {
    if hs == [] || room == 0 then []
    else [hs[0]] + Reached(hs[1..], if ActedOn(hs[0].key) then room - 1 else room)
  }

  /** The values under exactly this name. */
  function Values(hs: seq<Header>, key: bytes): (r: seq<bytes>) {
    if hs == [] then [] else (if hs[0].key == key then [hs[0].value] else []) + Values(hs[1..], key)
  }

  function Hits(hs: seq<Header>): (r: nat) {
    if hs == [] then 0 else (if ActedOn(hs[0].key) then 1 else 0) + Hits(hs[1..])
  }

  /** Nothing is passed over, and it ends with the last field that may be acted on. */
  lemma {:induction false} ReachedIsPrefix(hs: seq<Header>, room: nat)
    ensures var r := Reached(hs, room);
            && r <= hs && Hits(r) <= room && (Hits(r) < room ==> r == hs)
            && (r != [] && Hits(r) == room ==> ActedOn(r[|r| - 1].key))
    decreases |hs|
  {
    hide ActedOn;
    if hs != [] && room > 0 {
      var left := if ActedOn(hs[0].key) then room - 1 else room;
      var rest := Reached(hs[1..], left);
      ReachedIsPrefix(hs[1..], left);
      assert ([hs[0]] + rest)[1..] == rest;
      assert hs == [hs[0]] + hs[1..];
      if rest == [] {
        assert Hits(rest) == 0;
      }
    }
  }

  /** `g` is what the last values among `r` say, and `f` where there are none. */
  predicate LastSay(g: Fields, r: seq<Header>, f: Fields) {
    var types, media, lengths := Values(r, WARC_TYPE), Values(r, CONTENT_TYPE), Values(r, CONTENT_LENGTH);
    && g.recordType == (if types == [] then f.recordType else TypeOf(types[|types| - 1]))
    && g.isHttp == (if media == [] then f.isHttp else IsHttpType(media[|media| - 1]))
    && g.contentLength == (if lengths == [] then f.contentLength else LengthOf(lengths[|lengths| - 1]))
  }

  lemma ValuesOfFirst(h: Header, rest: seq<Header>, key: bytes)
    ensures Values([h] + rest, key) == (if h.key == key then [h.value] else []) + Values(rest, key)
  {
    assert ([h] + rest)[1..] == rest;
  }

  lemma LastSayOneMore(g: Fields, h: Header, rest: seq<Header>, f: Fields)
    requires LastSay(g, rest, TakeField(h, f).0)
    ensures LastSay(g, [h] + rest, f)
  {
    hide TypeOf, IsHttpType, LengthOf, Ascii, Values;
    KeysDiffer();
    ValuesOfFirst(h, rest, WARC_TYPE);
    ValuesOfFirst(h, rest, CONTENT_TYPE);
    ValuesOfFirst(h, rest, CONTENT_LENGTH);
  }

  lemma {:induction false} LastIsTaken(hs: seq<Header>, hits: nat, f: Fields)
    requires hits <= 3
    ensures LastSay(TakeFields(hs, hits, f), Reached(hs, 3 - hits), f)
    decreases |hs|
  {
    hide TypeOf, IsHttpType, LengthOf, Ascii, LastSay;
    if hs != [] && hits < 3 {
      var (g, hit) := TakeField(hs[0], f);
      var next := if hit then hits + 1 else hits;
      LastIsTaken(hs[1..], next, g);
      LastSayOneMore(TakeFields(hs[1..], next, g), hs[0], Reached(hs[1..], 3 - next), f);
    } else {
      NoneSay(f);
    }
  }

  lemma NoneSay(f: Fields)
    ensures LastSay(f, [], f)
  {
  }

  /** Of the fields that are reached the last one of each name counts. */
  lemma LastFieldsCount(hs: seq<Header>, given: Fields)
    ensures var g, r := TakeFields(hs, 0, given), Reached(hs, 3);
            && (var vs := Values(r, Ascii("WARC-Type"));
                g.recordType == if vs == [] then given.recordType else TypeOf(vs[|vs| - 1]))
            && (var vs := Values(r, Ascii("Content-Type"));
                g.isHttp == if vs == [] then given.isHttp else IsHttpType(vs[|vs| - 1]))
            && (var vs := Values(r, Ascii("Content-Length"));
                g.contentLength == if vs == [] then given.contentLength else LengthOf(vs[|vs| - 1]))
  {
    hide TypeOf, IsHttpType, LengthOf, Ascii, TakeFields, Reached, Values;
    LastIsTaken(hs, 0, given);
  }

  // ------------------------------------------------------------------
  // Records with laid out headers
  // ------------------------------------------------------------------

  /** A record whose header block is laid out in any way. */
  function LaidOutRecord(version: bytes, front: seq<Item>, ls: seq<Layout>, payload: bytes, quirks: bool): (r: ArchiveRecord) {
    ArchiveRecord(version, BlockText(front, ls, quirks), payload)
  }

  /** It is well-formed exactly when its version line and the length among the fields that are meant are right. */
  lemma LaidOutIsGoodIff(version: bytes, front: seq<Item>, ls: seq<Layout>, payload: bytes, quirks: bool)
    requires GoodItems(front, quirks) && GoodLayouts(ls, quirks)
    ensures var r, hs := LaidOutRecord(version, front, ls, payload, quirks), Orphaned(front) + Meant(ls);
            && FieldsOf(r, quirks) == TakeFields(hs, 0, NO_FIELDS)
            && (GoodRecord(r, quirks) <==>
                GoodVersion(version) && TakeFields(hs, 0, NO_FIELDS).contentLength == |payload|)
  {
    hide Scan, GoodItems, GoodLayouts, BlockText, TakeFields, GoodVersion, Orphaned, Meant;
    LaidOutParses(front, ls, [], Some(Trim(version)), quirks);
    WithoutRest(BlockText(front, ls, quirks));
  }

  /** An iteration reports the type by whose name, in any case, the last WARC-Type that is reached goes. */
  lemma TypeIsReported(rs: seq<ArchiveRecord>, i: nat, t: RecordType, quirks: bool)
    requires i < |rs| && Named(t)
    ensures var vs := Values(Reached(BlockScan(rs[i], quirks).state.block.headers, 3), Ascii("WARC-Type"));
            && (Report(rs, 0, quirks)[i].fields.recordType == t <==>
                vs != [] && EqIgnoreCase(vs[|vs| - 1], TypeName(t)))
            && (Report(rs, 0, quirks)[i].fields.recordType == NoType <==> vs == [])
  {
    hide BlockScan, TakeFields, Reached, Values, TypeOf, IsHttpType, LengthOf, Lower, TypeName, Ascii;
    ReportedAt(rs, 0, quirks, i);
    var hs := BlockScan(rs[i], quirks).state.block.headers;
    LastFieldsCount(hs, NO_FIELDS);
    var vs := Values(Reached(hs, 3), Ascii("WARC-Type"));
    if vs != [] {
      TypeOfIff(vs[|vs| - 1], t);
      TypeIsNamed(vs[|vs| - 1]);
    }
  }

  /** It reports HTTP exactly when the last Content-Type that is reached says so. */
  lemma HttpIsReported(rs: seq<ArchiveRecord>, i: nat, quirks: bool)
    requires i < |rs|
    ensures var vs := Values(Reached(BlockScan(rs[i], quirks).state.block.headers, 3), Ascii("Content-Type"));
            Report(rs, 0, quirks)[i].fields.isHttp <==> vs != [] && IsHttpType(vs[|vs| - 1])
  {
    hide BlockScan, TakeFields, Reached, Values, TypeOf, IsHttpType, LengthOf, Ascii;
    ReportedAt(rs, 0, quirks, i);
    var hs := BlockScan(rs[i], quirks).state.block.headers;
    LastFieldsCount(hs, NO_FIELDS);
  }

  // ------------------------------------------------------------------
  // A written record and what is read of it
  // ------------------------------------------------------------------

  predicate PlainValue(value: bytes) {
    Trimmed(value) && LF !in value
  }

  /** The three fields, the type under any spelling of its name. */
  function TypedFields(name: bytes, media: bytes, n: nat): (r: seq<Header>) {
    [Header(WARC_TYPE, name), Header(CONTENT_TYPE, media), Header(CONTENT_LENGTH, Print(n, Dec))]
  }

  function TypedRecord(name: bytes, media: bytes, payload: bytes): (r: ArchiveRecord) {
    ArchiveRecord(Ascii("WARC/1.1") + CRLF, FieldsText(TypedFields(name, media, |payload|)), payload)
  }

  lemma PlainFieldIsSafe(h: Header, quirks: bool)
    requires h.key != [] && PlainValue(h.value) && forall i :: 0 <= i < |h.key| ==> !IsSpace(h.key[i]) && h.key[i] != COLON
    ensures SafeField(h, quirks)
  {
    IndexOfFirst(h.key, COLON);
    var body := FieldBody(h);
    assert forall i :: 0 <= i < |h.key| ==> body[i] == h.key[i];
    assert forall i :: 0 <= i < |h.value| ==> body[|h.key| + 2 + i] == h.value[i];
    assert LF !in body;
  }

  lemma KeysArePlain(key: bytes)
    requires ActedOn(key)
    ensures key != [] && forall i :: 0 <= i < |key| ==> !IsSpace(key[i]) && key[i] != COLON
  {
  }

  lemma NamesHaveNoSpace(t: RecordType)
    ensures forall i :: 0 <= i < |TypeName(t)| ==> !IsSpace(TypeName(t)[i])
  {
  }

  lemma NamesArePlain(name: bytes, t: RecordType)
    requires Named(t) && EqIgnoreCase(name, TypeName(t))
    ensures PlainValue(name)
  {
    hide TypeName;
    NamesHaveNoSpace(t);
    NamesAreLower(t);
    assert forall i :: 0 <= i < |name| ==> LowerByte(name[i]) == Lower(name)[i] == TypeName(t)[i];
  }

  lemma NumbersArePlain(n: nat)
    ensures PlainValue(Print(n, Dec))
  {
    PrintParses(n, Dec);
  }

  lemma TypedFieldsTaken(name: bytes, media: bytes, n: nat, t: RecordType)
    requires Named(t) && EqIgnoreCase(name, TypeName(t)) && n <= U64_MAX
    ensures TakeFields(TypedFields(name, media, n), 0, NO_FIELDS) == Fields(t, IsHttpType(media), n)
  {
    hide TypeOf, IsHttpType, LengthOf, Ascii, Print, Lower, TypeName;
    var hs := TypedFields(name, media, n);
    KeysDiffer();
    TypeOfIff(name, t);
    LengthOfPrinted(n);
    var f := NO_FIELDS.(recordType := t);
    var g := f.(isHttp := IsHttpType(media));
    assert TakeFields(hs, 0, NO_FIELDS) == TakeFields(hs[1..], 1, f);
    assert TakeFields(hs[1..], 1, f) == TakeFields(hs[2..], 2, g);
    assert TakeFields(hs[2..], 2, g) == TakeFields(hs[3..], 3, g.(contentLength := n));
  }

  /** It is well-formed, and type, media type and length are those that were written. */
  lemma TypedRecordIsRead(name: bytes, media: bytes, payload: bytes, t: RecordType, quirks: bool)
    requires Named(t) && EqIgnoreCase(name, TypeName(t)) && PlainValue(media) && |payload| <= U64_MAX
    ensures var r := TypedRecord(name, media, payload);
            GoodRecord(r, quirks) && FieldsOf(r, quirks) == Fields(t, IsHttpType(media), |payload|)
  {
    hide GoodVersion, SafeField, FieldsText, IsHttpType, TakeFields, BlockScan, EqIgnoreCase, PlainValue, Print, TypeName;
    var hs := TypedFields(name, media, |payload|);
    TypedFieldsTaken(name, media, |payload|, t);
    NamesArePlain(name, t);
    NumbersArePlain(|payload|);
    forall i | 0 <= i < |hs|
      ensures SafeField(hs[i], quirks)
    {
      KeysArePlain(hs[i].key);
      PlainFieldIsSafe(hs[i], quirks);
    }
    PlainVersionIsGood();
    WrittenRecordIsGoodIff(Ascii("WARC/1.1") + CRLF, hs, payload, quirks);
  }

  /** Reading an archive of written records, whatever is done with their payloads. */
  method ReadTyped(text: bytes, quirks: bool, maxHeaderLen: nat, plan: seq<seq<Step>>, ghost rs: seq<ArchiveRecord>,
                   ghost names: seq<bytes>, ghost media: seq<bytes>, ghost types: seq<RecordType>)
    returns (seen: seq<Seen>, failed: bool)
    requires |names| == |media| == |types| == |rs|
    requires forall i :: 0 <= i < |rs| ==>
               && Named(types[i]) && EqIgnoreCase(names[i], TypeName(types[i])) && PlainValue(media[i])
               && rs[i] == TypedRecord(names[i], media[i], rs[i].payload)
    requires text == ArchiveText(rs) && |text| <= I64_MAX && HeadsFit(rs, maxHeaderLen)
    ensures !failed && |seen| == |rs|
    ensures forall i :: 0 <= i < |rs| ==> seen[i].fields == Fields(types[i], IsHttpType(media[i]), |rs[i].payload|)
  {
    hide GoodRecord, TypedRecord, IsHttpType, FieldsOf, ArchiveText, EqIgnoreCase, TypeName, PlainValue, HeadFits;
    PayloadsFit(rs);
    forall i | 0 <= i < |rs|
      ensures GoodRecord(rs[i], quirks) && FieldsOf(rs[i], quirks) == Fields(types[i], IsHttpType(media[i]), |rs[i].payload|)
      ensures Report(rs, 0, quirks)[i].fields == FieldsOf(rs[i], quirks)
    {
      TypedRecordIsRead(names[i], media[i], rs[i].payload, types[i], quirks);
      ReportedAt(rs, 0, quirks, i);
    }
    var stream := new TrackedReader(text);
    seen, failed := Iterate(stream, quirks, maxHeaderLen, plan, rs);
  }

  lemma {:induction false} PayloadsFit(rs: seq<ArchiveRecord>)
    ensures forall i :: 0 <= i < |rs| ==> |rs[i].payload| <= |ArchiveText(rs)|
  {
    if rs != [] {
      PayloadsFit(rs[1..]);
      assert forall i :: 1 <= i < |rs| ==> rs[i] == rs[1..][i - 1];
    }
  }


  // ------------------------------------------------------------------
  // Lengths
  // ------------------------------------------------------------------

  /** A length is read from its decimal spellings; what spells none counts as zero. */
  lemma LengthOfIff(s: bytes, n: nat)
    requires n > 0
    ensures LengthOf(s) == n <==> n <= U64_MAX && Spells(s, n, Dec)
  {
    hide Spells, ParseUnsigned;
    ParseIff(s, n, Dec);
  }


  // ------------------------------------------------------------------
  // Long first lines
  // ------------------------------------------------------------------

  lemma {:induction false} NoLineEnd(s: bytes, p: nat, cap: nat)
    requires p <= cap <= |s| && forall j :: p <= j < cap ==> s[j] != LF
    ensures LineEnd(s, p, cap) == cap
    decreases cap - p
  {
    if p < cap {
      NoLineEnd(s, p + 1, cap);
    }
  }

  /** Of a first line without end 256 bytes are looked at, and what follows counts as the next line. */
  lemma LongLineIsCut(s: bytes, p: nat, quirks: bool)
    requires p + 256 <= |s| && (forall j :: p <= j < p + 256 ==> s[j] != LF) && !AllSpace(s[p..p + 256])
    ensures FindVersion(s, p, quirks) ==
            if IsVersionLine(TrimEnd(s[p..p + 256])) then VersionAt(p, p + 256)
            else if quirks then FindVersion(s, p + 256, quirks) else BadLine(p)
  {
    hide TrimEnd, IsVersionLine;
    NoLineEnd(s, p, p + 256);
    TrimEndEmpty(s[p..p + 256]);
  }
}

/**
 The copy-on-write header map (fastwarc-rs/src/warc/header.rs): entries are
 offsets into the raw block until they are changed.
 */
module HeaderMaps {
  import opened Wrappers
  import opened ByteStrings
  import opened HeaderScan
  import opened HeaderCache
  import opened HeaderEdits
  import opened HeaderText
  import opened Readers

  datatype CowValue = ValueAt(start: nat, end: nat) | ValueOwned(bytes: bytes)

  datatype CowTuple =
    | TupleAt(keyStart: nat, keyEnd: nat, valueStart: nat, valueEnd: nat)
    | TupleOwned(key: bytes, value: bytes)

  predicate ValueFits(v: Option<CowValue>, n: nat) {
    v.Some? && v.value.ValueAt? ==> v.value.start <= v.value.end <= n
  }

  predicate TupleFits(h: CowTuple, n: nat) {
    h.TupleAt? ==> h.keyStart <= h.keyEnd <= n && h.valueStart <= h.valueEnd <= n
  }

  predicate TuplesFit(hs: seq<CowTuple>, n: nat) {
    forall i :: 0 <= i < |hs| ==> TupleFits(hs[i], n)
  }

  function ResolveValue(raw: bytes, v: Option<CowValue>): (r: Option<bytes>)
    requires ValueFits(v, |raw|)
  {
    match v
    case None => None
    case Some(ValueAt(a, b)) => Some(raw[a..b])
    case Some(ValueOwned(x)) => Some(x)
  }

  function ResolveTuple(raw: bytes, h: CowTuple): (r: Header)
    requires TupleFits(h, |raw|)
  {
    match h
    case TupleAt(a, b, c, d) => Header(raw[a..b], raw[c..d])
    case TupleOwned(k, v) => Header(k, v)
  }

  function Resolve(raw: bytes, hs: seq<CowTuple>): (r: seq<Header>)
    requires TuplesFit(hs, |raw|)
    ensures |r| == |hs|
    ensures forall i :: 0 <= i < |hs| ==> r[i] == ResolveTuple(raw, hs[i])
  {
    seq(|hs|, i requires 0 <= i < |hs| => ResolveTuple(raw, hs[i]))
  }

  /** Appending to the raw block disturbs no entry. */
  lemma ResolveGrown(raw: bytes, more: bytes, v: Option<CowValue>, hs: seq<CowTuple>)
    requires ValueFits(v, |raw|) && TuplesFit(hs, |raw|)
    ensures ResolveValue(raw + more, v) == ResolveValue(raw, v)
    ensures Resolve(raw + more, hs) == Resolve(raw, hs)
  {
    forall i | 0 <= i < |hs|
      ensures ResolveTuple(raw + more, hs[i]) == ResolveTuple(raw, hs[i])
    {
      ResolveTupleGrown(raw, more, hs[i]);
    }
    if v.Some? && v.value.ValueAt? {
      SliceGrown(raw, more, v.value.start, v.value.end);
    }
  }

  lemma SliceGrown(raw: bytes, more: bytes, a: nat, b: nat)
    requires a <= b <= |raw|
    ensures (raw + more)[a..b] == raw[a..b]
  {
  }

  lemma ResolveTupleGrown(raw: bytes, more: bytes, h: CowTuple)
    requires TupleFits(h, |raw|)
    ensures ResolveTuple(raw + more, h) == ResolveTuple(raw, h)
  {
    if h.TupleAt? {
      SliceGrown(raw, more, h.keyStart, h.keyEnd);
      SliceGrown(raw, more, h.valueStart, h.valueEnd);
    }
  }

  lemma ResolveAppend(raw: bytes, hs: seq<CowTuple>, h: CowTuple)
    requires TuplesFit(hs, |raw|) && TupleFits(h, |raw|)
    ensures TuplesFit(hs + [h], |raw|)
    ensures Resolve(raw, hs + [h]) == Resolve(raw, hs) + [ResolveTuple(raw, h)]
  {
  }

  lemma ResolveUpdate(raw: bytes, hs: seq<CowTuple>, i: nat, h: CowTuple)
    requires TuplesFit(hs, |raw|) && TupleFits(h, |raw|) && i < |hs|
    ensures TuplesFit(hs[i := h], |raw|)
    ensures Resolve(raw, hs[i := h]) == Resolve(raw, hs)[i := ResolveTuple(raw, h)]
  {
  }

  /** The trimmed text at `start`, as offsets into the raw block. */
  function TrimmedAt(raw: bytes, start: nat, end: nat): (r: (nat, nat))
    requires start <= end <= |raw|
    ensures r.0 <= r.1 <= |raw|
    ensures raw[r.0..r.1] == Trim(raw[start..end])
  {
    var t := TrimOffsets(raw[start..end]);
    SliceOfSlice(raw, start, end, t.0, t.1);
    (start + t.0, start + t.1)
  }

  /** The entry for a field line, stored as offsets. */
  function FieldAt(raw: bytes, lineStart: nat): (r: Option<CowTuple>)
    requires lineStart <= |raw|
    ensures r.Some? ==> TupleFits(r.value, |raw|)
  {
    match IndexOf(raw[lineStart..], COLON)
    case None => None
    case Some(c) =>
      var k := TrimmedAt(raw, lineStart, lineStart + c);
      var v := TrimmedAt(raw, lineStart + c + 1, |raw|);
      Some(TupleAt(k.0, k.1, v.0, v.1))
  }

  /** The stored offsets stand for the field the line denotes. */
  lemma FieldAtResolves(raw: bytes, lineStart: nat)
    requires lineStart <= |raw|
    ensures Field(raw[lineStart..]) ==
            match FieldAt(raw, lineStart) case Some(f) => Some(ResolveTuple(raw, f)) case None => None
  {
    hide Trim, TrimmedAt;
    var line := raw[lineStart..];
    if IndexOf(line, COLON).Some? {
      var c := IndexOf(line, COLON).value;
      assert line[..c] == raw[lineStart..lineStart + c];
      assert line[c + 1..] == raw[lineStart + c + 1..|raw|];
    }
  }

  /** All but the fields from `i` on is written behind `out`. */
  ghost predicate FieldsStep(out: bytes, all: seq<Header>, i: nat, written: bytes) {
    i <= |all| && written + FieldsText(all[i..]) == out + FieldsText(all)
  }

  lemma FieldsStepOn(out: bytes, all: seq<Header>, i: nat, written: bytes)
    requires i < |all| && FieldsStep(out, all, i, written)
    ensures FieldsStep(out, all, i + 1, written + (FieldBody(all[i]) + CRLF))
  {
    hide FieldBody;
    assert all[i..][1..] == all[i + 1..];
    var line := FieldBody(all[i]) + CRLF;
    assert written + (line + FieldsText(all[i + 1..])) == written + line + FieldsText(all[i + 1..]);
  }

  /** The raw block is within the limit, but for the LF of a split CRLF, which is not checked. */
  predicate Within(raw: bytes, bound: nat) {
    |raw| <= bound || (|raw| == bound + 1 && raw[bound] == LF)
  }

  /** Why a chunk stopped being read. */
  datatype ChunkOutcome = More | BlockEnd | TooLong

  /** How keys and values are turned into text; the modelled operations work on bytes. */
  datatype Encoding = Unicode | Latin1

  class HeaderMap {
    const encoding: Encoding
    var dirty: bool
    var raw: bytes
    var statusLine: Option<CowValue>
    var headers: seq<CowTuple>

    ghost predicate Valid()
      reads this
    {
      ValueFits(statusLine, |raw|) && TuplesFit(headers, |raw|)
    }

    /** The logical content, with all offsets resolved. */
    ghost function Content(): Block
      requires Valid()
      reads this
    {
      Block(ResolveValue(raw, statusLine), Resolve(raw, headers))
    }

    /** The state the laws of `HeaderCache` speak about. */
    ghost function Abs(): MapState
      requires Valid()
      reads this
    {
      MapState(dirty, raw, Content())
    }

    /** The state the line interpreter sees. */
    ghost function State(pending: bool): ScanState
      requires Valid()
      reads this
    {
      ScanState(Content(), pending)
    }

    constructor (encoding: Encoding)
      ensures Valid() && Abs() == EMPTY_MAP && this.encoding == encoding
    {
      this.encoding := encoding;
      dirty, raw, statusLine, headers := false, [], None, [];
    }

    method Clear()
      modifies this
      ensures Valid() && Abs() == EMPTY_MAP
    {
      dirty := false;
      raw := [];
      headers := [];
      statusLine := None;
    }

    /** Makes the version line the whole content, before the named fields are parsed. */
    method Seed(line: bytes)
      requires line != []
      modifies this
      ensures Valid() && Abs() == MapState(false, line, Block(Some(Trim(line)), []))
    {
      hide Trim;
      var offsets := TrimOffsets(line);
      Clear();
      raw := raw + line;
      assert raw == line;
      statusLine := Some(ValueAt(offsets.0, offsets.1));
    }

    // ----------------------------------------------------------------
    // Parsing
    // ----------------------------------------------------------------

    /** Interprets the line that starts at `lineStart` of the raw block. */
    method SplitAndPushParsedLine(lineStart: nat, expectStatusLine: bool) returns (pending: bool)
      requires Valid() && lineStart <= |raw|
      modifies this`statusLine, this`headers
      ensures Valid()
      ensures State(pending) == PushLine(old(State(expectStatusLine)), raw[lineStart..])
    {
      var line := raw[lineStart..];
      assert line == raw[lineStart..|raw|];

      if expectStatusLine {
        var trimmed := TrimmedAt(raw, lineStart, |raw|);
        statusLine := Some(ValueAt(trimmed.0, trimmed.1));
        return false;
      }
      pending := false;

      if IsContinuation(line) {
        var trimmed := Trim(line);
        if |headers| > 0 {
          var last := ResolveTuple(raw, headers[|headers| - 1]);
          var folded := TupleOwned(last.key, last.value + [SP] + trimmed);
          ResolveUpdate(raw, headers, |headers| - 1, folded);
          headers := headers[|headers| - 1 := folded];
        } else {
          headers := [TupleOwned([], trimmed)];
        }
        return;
      }

      var field := FieldAt(raw, lineStart);
      FieldAtResolves(raw, lineStart);
      if field.Some? {
        ResolveAppend(raw, headers, field.value);
        headers := headers + [field.value];
      }
    }

    /** Appends the rest of a line, and interprets the line unless it ends the block. */
    method FinishLine(part: bytes, sepLen: nat, lineStart: nat, expectStatusLine: bool, quirks: bool)
      returns (ended: bool, pending: bool)
      requires Valid() && lineStart <= |raw|
      modifies this`raw, this`statusLine, this`headers
      ensures Valid() && raw == old(raw) + part
      ensures ended <==> EndTest(old(LineOf(raw, part, lineStart)), sepLen, quirks)
      ensures State(pending) ==
              if ended then old(State(expectStatusLine))
              else PushLine(old(State(expectStatusLine)), old(LineOf(raw, part, lineStart)))
    {
      ResolveGrown(raw, part, statusLine, headers);
      raw := raw + part;
      var line := raw[lineStart..];
      ended := |line| == sepLen || (quirks && |TrimEnd(line)| == 0);
      if ended {
        return true, expectStatusLine;
      }
      pending := SplitAndPushParsedLine(lineStart, expectStatusLine);
    }

    /**
     Reads one line, or the beginning of one, from a chunk of the input that
     stands at `c`.
     */
    method ReadChunkLine(chunk: bytes, from: nat, startOfLine: nat, expectStatusLine: bool, maxHeaderLen: nat, quirks: bool,
                         ghost t: Task, ghost c: nat, ghost d: nat)
      returns (outcome: ChunkOutcome, consumed: nat, lineStart: nat, pending: bool)
      requires Valid() && from < |chunk| && quirks == t.quirks
      requires t.start <= c < d <= t.end <= |t.s| && chunk == Text(t.s, c, d)
      requires Parsing(t, State(expectStatusLine), raw, startOfLine, c + from)
      requires CleanCut(t.s, LineAt(t, startOfLine), c + from, quirks)
      modifies this`raw, this`statusLine, this`headers
      ensures Valid() && from <= consumed <= |chunk|
      ensures outcome != TooLong ==> |raw| <= maxHeaderLen
      ensures outcome == More ==> from < consumed
      ensures outcome != BlockEnd ==> Parsing(t, State(pending), raw, lineStart, c + consumed) && |t.seed| <= lineStart
      ensures outcome == More ==> consumed == |chunk| || LineAt(t, lineStart) == c + consumed
      ensures outcome == BlockEnd ==> raw == t.seed + Text(t.s, t.start, c + consumed)
      ensures outcome == BlockEnd ==> t.goal == Scanned(State(pending), c + consumed, true)
      ensures outcome == TooLong ==> maxHeaderLen < |t.seed| + 2 * (t.goal.pos - t.start)
    {
      hide PushLine, TrimEnd, Scan, Text, NextEol, EndTest, Parsing, UnfinishedBehind;
      lineStart, pending := startOfLine, expectStatusLine;
      ParsingUnfinished(t, State(pending), raw, lineStart, c + from);
      var eol := NextEol(chunk, from, |chunk|, quirks);
      if eol.None? {
        ChunkInLine(t, State(pending), raw, lineStart, c, d, chunk, from);
        if |raw| + |chunk| > maxHeaderLen {
          return TooLong, from, lineStart, pending;
        }
        ResolveGrown(raw, chunk[from..], statusLine, headers);
        raw := raw + chunk[from..];
        return More, |chunk|, lineStart, pending;
      }
      consumed := eol.value;
      ChunkEndsLine(t, State(pending), raw, lineStart, c, d, chunk, from, consumed);
      if |raw| + (consumed - from) > maxHeaderLen {
        return TooLong, from, lineStart, pending;
      }
      var ended;
      ended, pending := FinishLine(chunk[from..consumed], SepLen(quirks), lineStart, pending, quirks);
      outcome := if ended then BlockEnd else More;
      lineStart := |raw|;
      if !ended {
        ParsingUnfinished(t, State(pending), raw, lineStart, c + consumed);
      }
    }

    /** Reads the lines of one chunk; it may begin and end inside a line. */
    method ReadChunk(chunk: bytes, from: nat, startOfLine: nat, expectStatusLine: bool, maxHeaderLen: nat, quirks: bool,
                     ghost t: Task, ghost c: nat, ghost d: nat)
      returns (outcome: ChunkOutcome, consumed: nat, lineStart: nat, pending: bool)
      requires Valid() && from <= |chunk| && quirks == t.quirks
      requires t.start <= c < d <= t.end <= |t.s| && chunk == Text(t.s, c, d)
      requires Parsing(t, State(expectStatusLine), raw, startOfLine, c + from)
      requires CleanCut(t.s, LineAt(t, startOfLine), c + from, quirks)
      modifies this`raw, this`statusLine, this`headers
      ensures Valid() && from <= consumed <= |chunk|
      ensures outcome != TooLong ==> |raw| <= maxHeaderLen || (from == |chunk| && raw == old(raw))
      ensures outcome == More ==> consumed == |chunk|
      ensures outcome != BlockEnd ==> Parsing(t, State(pending), raw, lineStart, c + consumed)
      ensures outcome == BlockEnd ==> raw == t.seed + Text(t.s, t.start, c + consumed)
      ensures outcome == BlockEnd ==> t.goal == Scanned(State(pending), c + consumed, true)
      ensures outcome == TooLong ==> maxHeaderLen < |t.seed| + 2 * (t.goal.pos - t.start)
    {
      hide PushLine, TrimEnd, Scan, NextEol, Text, Parsing, UnfinishedBehind;
      outcome, consumed, lineStart, pending := More, from, startOfLine, expectStatusLine;
      ParsingUnfinished(t, State(pending), raw, lineStart, c + from);
      while consumed < |chunk|
        invariant Valid() && from <= consumed <= |chunk| && outcome == More
        invariant |raw| <= maxHeaderLen || (consumed == from && raw == old(raw))
        invariant Parsing(t, State(pending), raw, lineStart, c + consumed) && |t.seed| <= lineStart
        invariant consumed < |chunk| ==> CleanCut(t.s, LineAt(t, lineStart), c + consumed, quirks)
      {
        outcome, consumed, lineStart, pending :=
          ReadChunkLine(chunk, consumed, lineStart, pending, maxHeaderLen, quirks, t, c, d);
        if outcome != More {
          return;
        }
      }
    }

    /**
     The raw block was seeded with the version line by the record parser: it is
     kept, and the named fields are parsed behind it.
     */
    predicate PreservesPrefix(hasStatusLine: bool)
      reads this
    {
      !hasStatusLine && statusLine.Some? && |headers| == 0 && |raw| > 0
    }

    /** The parse of what `reader` can still deliver, as an operation on the map. */
    ghost function ParseOp(reader: LimitedReader, hasStatusLine: bool, quirks: bool): (op: HeaderOp)
      requires reader.Valid()
      reads reader, reader.inner
    {
      Parse(reader.inner.data, reader.inner.pos, reader.End(), hasStatusLine, quirks)
    }

    /** Completes a line whose CRLF was split: its LF is the first byte of the buffer at `p`. */
    method ReadSplitCrlf(first: byte, startOfLine: nat, expectStatusLine: bool, quirks: bool, ghost t: Task, ghost p: nat)
      returns (ended: bool, from: nat, lineStart: nat, pending: bool)
      requires Valid() && quirks == t.quirks && p < t.end <= |t.s| && first == t.s[p]
      requires Reading(t, State(expectStatusLine), raw, startOfLine, p)
      modifies this`raw, this`statusLine, this`headers
      ensures Valid() && 0 <= from <= 1 && (ended ==> from == 1)
      ensures if from == 0 then raw == old(raw) else old(raw) != [] && old(raw[|raw| - 1]) == CR && raw == old(raw) + [LF]
      ensures ended ==> raw == t.seed + Text(t.s, t.start, p + 1) && t.goal == Scanned(State(pending), p + 1, true)
      ensures !ended ==> Parsing(t, State(pending), raw, lineStart, p + from)
      ensures !ended ==> CleanCut(t.s, LineAt(t, lineStart), p + from, quirks)
    {
      hide PushLine, TrimEnd, Scan, NextEol, BehindCrSeed, Text, EndTest, Reading;
      ended, from, lineStart, pending := false, 0, startOfLine, expectStatusLine;
      if |raw| > 0 && raw[|raw| - 1] == CR && first == LF {
        SplitCrlfEndsLine(t, State(pending), raw, lineStart, p);
        ended, pending := FinishLine([LF], 2, lineStart, pending, quirks);
        from := 1;
        lineStart := |raw|;
        if !ended {
          NextLineIsClean(t, State(pending), raw, p + 1);
        }
      } else {
        ReadingIsClean(t, State(pending), raw, lineStart, p);
      }
    }

    /** Reads one buffer of the input, a non-empty `chunk` that stands at `p`. */
    method ReadWindow(chunk: bytes, startOfLine: nat, expectStatusLine: bool, maxHeaderLen: nat, quirks: bool,
                      ghost t: Task, ghost p: nat)
      returns (outcome: ChunkOutcome, consumed: nat, lineStart: nat, pending: bool)
      requires Valid() && quirks == t.quirks
      requires chunk != [] && p + |chunk| <= t.end <= |t.s| && chunk == Text(t.s, p, p + |chunk|)
      requires Reading(t, State(expectStatusLine), raw, startOfLine, p)
      modifies this`raw, this`statusLine, this`headers
      ensures Valid() && consumed <= |chunk|
      ensures forall b: nat :: outcome != TooLong && maxHeaderLen <= b && old(Within(raw, b)) ==> Within(raw, b)
      ensures outcome == More ==> 0 < consumed && Reading(t, State(pending), raw, lineStart, p + consumed)
      ensures outcome == BlockEnd ==> raw == t.seed + Text(t.s, t.start, p + consumed)
      ensures outcome == BlockEnd ==> t.goal == Scanned(State(pending), p + consumed, true)
      ensures outcome == TooLong ==> maxHeaderLen < |t.seed| + 2 * (t.goal.pos - t.start)
      ensures outcome == TooLong ==> Parsing(t, State(pending), raw, lineStart, p + consumed)
    {
      hide PushLine, TrimEnd, Scan, NextEol, Text, EndTest, Parsing, Reading, CleanCut, LineAt, HeaderMap.Content,
        HeaderMap.Valid;
      ReadingText(t, State(expectStatusLine), raw, startOfLine, p);
      TextFirst(t.s, p, p + |chunk|);
      var ended;
      ended, consumed, lineStart, pending := ReadSplitCrlf(chunk[0], startOfLine, expectStatusLine, quirks, t, p);
      outcome := BlockEnd;
      if !ended {
        outcome, consumed, lineStart, pending :=
          ReadChunk(chunk, consumed, lineStart, pending, maxHeaderLen, quirks, t, p, p + |chunk|);
        if outcome == More {
          ParsingIsReading(t, State(pending), raw, lineStart, p + consumed);
        }
      }
    }

    /** At the end of the input an unfinished line still counts. */
    method ReadUnfinished(lineStart: nat, expectStatusLine: bool, ghost t: Task) returns (pending: bool)
      requires Valid() && Reading(t, State(expectStatusLine), raw, lineStart, t.end)
      modifies this`statusLine, this`headers
      ensures Valid() && raw == t.seed + Text(t.s, t.start, t.end) && t.goal == Scanned(State(pending), t.end, false)
    {
      hide PushLine, TrimEnd, Scan, NextEol, Text, Reading, HeaderMap.Content, HeaderMap.Valid;
      pending := expectStatusLine;
      ReadingEnds(t, State(pending), raw, lineStart);
      if |raw[lineStart..]| > 0 {
        pending := SplitAndPushParsedLine(lineStart, pending);
      }
    }

    /** Reads one buffer of the input, or notices its end. */
    method ReadBuffer(reader: LimitedReader, startOfLine: nat, expectStatusLine: bool, maxHeaderLen: nat, quirks: bool,
                      ghost t: Task)
      returns (outcome: ChunkOutcome, consumed: nat, lineStart: nat, pending: bool)
      requires Valid() && reader.Valid() && quirks == t.quirks
      requires t.s == reader.inner.data && t.end == reader.End()
      requires Reading(t, State(expectStatusLine), raw, startOfLine, reader.inner.pos)
      modifies this`raw, this`statusLine, this`headers, reader, reader.inner
      ensures Valid() && reader.Valid() && reader.Advanced(consumed) && reader.End() == t.end
      ensures forall b: nat :: outcome != TooLong && maxHeaderLen <= b && old(Within(raw, b)) ==> Within(raw, b)
      ensures outcome == More ==> 0 < consumed && Reading(t, State(pending), raw, lineStart, reader.inner.pos)
      ensures outcome == BlockEnd ==> raw == t.seed + Text(t.s, t.start, t.goal.pos)
      ensures outcome == BlockEnd ==> reader.inner.pos == t.goal.pos && Content() == t.goal.state.block
      ensures outcome == TooLong ==> consumed == 0 && maxHeaderLen < |t.seed| + 2 * (t.goal.pos - t.start)
      ensures outcome == TooLong ==> |t.seed| <= |raw| && Parsing(t, State(pending), raw, lineStart, Reached(t, raw))
    {
      hide Text, Parsing, Reading, HeaderMap.Content, HeaderMap.Valid, TrackedReader.Valid;
      var chunk := reader.FillBuf();
      if |chunk| == 0 {
        pending := ReadUnfinished(startOfLine, expectStatusLine, t);
        return BlockEnd, 0, startOfLine, pending;
      }
      outcome, consumed, lineStart, pending :=
        ReadWindow(chunk, startOfLine, expectStatusLine, maxHeaderLen, quirks, t, reader.inner.pos);
      if outcome == TooLong {
        ParsingReached(t, State(pending), raw, lineStart, reader.inner.pos + consumed);
        return outcome, 0, lineStart, pending;
      }
      reader.Consume(consumed);
    }

    /**
     Parses a header block. Whatever the buffers, the outcome is that of the
     operation on the whole input; only a header limit below twice the block can
     get in the way.
     */
    method ParseWithOpts(reader: LimitedReader, hasStatusLine: bool, maxHeaderLen: nat, quirks: bool)
      returns (r: Result<nat, IoError>)
      requires Valid() && reader.Valid()
      modifies this, reader, reader.inner
      ensures Valid() && reader.Valid()
      ensures r.Ok? ==> Abs() == ApplyOp(old(Abs()), old(ParseOp(reader, hasStatusLine, quirks)))
      ensures r.Ok? ==> reader.Advanced(r.value) && reader.End() == old(reader.End())
      ensures r.Ok? ==> reader.inner.pos == TaskOf(old(Abs()), old(ParseOp(reader, hasStatusLine, quirks))).goal.pos
      ensures r.Ok? ==> var seed := TaskOf(old(Abs()), old(ParseOp(reader, hasStatusLine, quirks))).seed;
                        |raw| <= maxHeaderLen + 1 || |raw| <= |seed| + 1
      ensures r.Err? ==> r.error == InvalidData && reader.limit == old(reader.limit) && reader.Anchor() == old(reader.Anchor())
      ensures r.Err? ==> LimitHit(TaskOf(old(Abs()), old(ParseOp(reader, hasStatusLine, quirks))), maxHeaderLen)
      ensures r.Err? ==> LeftBroken(old(Abs()), old(ParseOp(reader, hasStatusLine, quirks)), Abs())
    {
      hide PushLine, TrimEnd, Scan, ScanBehind, NextEol, Text, Parsing, Reading, UnfinishedBehind, LeftBroken;
      ghost var t := TaskOf(Abs(), ParseOp(reader, hasStatusLine, quirks));
      assert Seeded(Abs(), hasStatusLine) == PreservesPrefix(hasStatusLine);
      if !PreservesPrefix(hasStatusLine) {
        Clear();
      }
      dirty := false;
      var pending := hasStatusLine;
      var lineStart: nat := |raw|;
      var bytesConsumed: nat := 0;
      ReadingStarts(t, State(pending));
      while true
        invariant Valid() && reader.Valid() && !dirty
        invariant reader.Advanced(bytesConsumed) && reader.End() == t.end
        invariant Reading(t, State(pending), raw, lineStart, reader.inner.pos)
        invariant Within(raw, if |t.seed| > maxHeaderLen then |t.seed| else maxHeaderLen)
        decreases t.end - reader.inner.pos
      {
        var outcome: ChunkOutcome, n: nat;
        outcome, n, lineStart, pending := ReadBuffer(reader, lineStart, pending, maxHeaderLen, quirks, t);
        bytesConsumed := bytesConsumed + n;
        if outcome == BlockEnd {
          return Ok(bytesConsumed);
        } else if outcome == TooLong {
          BreaksOff(old(Abs()), old(ParseOp(reader, hasStatusLine, quirks)), State(pending), raw, lineStart);
          return Err(InvalidData);
        }
      }
    }

    // ----------------------------------------------------------------
    // Editing
    // ----------------------------------------------------------------

    method SetStatusLineBytes(status: bytes)
      requires Valid()
      modifies this`dirty, this`statusLine
      ensures Valid() && Abs() == ApplyOp(old(Abs()), SetStatus(status))
    {
      dirty := true;
      statusLine := Some(ValueOwned(Sanitize(status, true)));
    }

    method AppendBytes(key: bytes, value: bytes)
      requires Valid()
      modifies this`dirty, this`headers
      ensures Valid() && Abs() == ApplyOp(old(Abs()), Append(key, value))
    {
      hide Sanitize;
      dirty := true;
      var h := TupleOwned(Sanitize(key, true), Sanitize(value, false));
      ResolveAppend(raw, headers, h);
      headers := headers + [h];
    }

    method SetBytes(key: bytes, value: bytes)
      requires Valid()
      modifies this`dirty, this`headers
      ensures Valid() && Abs() == ApplyOp(old(Abs()), Set(key, value))
    {
      hide Sanitize, Lower, Overwrite, SetStep;
      var keyLower := Sanitize(Lower(key), true);
      var h := TupleOwned(Sanitize(key, true), Sanitize(value, false));
      ghost var all := Resolve(raw, headers);
      ghost var field := SanitizedField(key, value);
      dirty := true;
      var kept, found := [], false;
      SetStepStarts(all, keyLower, field);
      for i := 0 to |headers|
        invariant dirty && headers == old(headers) && TuplesFit(kept, |raw|)
        invariant SetStep(all, keyLower, field, i, Resolve(raw, kept), found)
      {
        SetStepOn(all, keyLower, field, i, Resolve(raw, kept), found);
        ResolveAppend(raw, kept, headers[i]);
        ResolveAppend(raw, kept, h);
        if Lower(ResolveTuple(raw, headers[i]).key) != keyLower {
          kept := kept + [headers[i]];
        } else if !found {
          kept := kept + [h];
          found := true;
        }
      }
      SetStepEnds(all, keyLower, field, Resolve(raw, kept), found);
      if !found {
        ResolveAppend(raw, kept, h);
        kept := kept + [h];
      }
      headers := kept;
    }

    method RemoveBytes(key: bytes)
      requires Valid()
      modifies this`dirty, this`headers
      ensures Valid() && Abs() == ApplyOp(old(Abs()), Remove(key))
    {
      hide Sanitize, Lower, RemoveStep, Without, EqIgnoreCase;
      var k := Sanitize(key, true);
      ghost var all := Resolve(raw, headers);
      var kept := [];
      RemoveStepStarts(all, k);
      for i := 0 to |headers|
        invariant headers == old(headers) && dirty == old(dirty)
        invariant TuplesFit(kept, |raw|) && RemoveStep(all, k, i, Resolve(raw, kept))
      {
        RemoveStepOn(all, k, i, Resolve(raw, kept));
        ResolveAppend(raw, kept, headers[i]);
        if !EqIgnoreCase(ResolveTuple(raw, headers[i]).key, k) {
          kept := kept + [headers[i]];
        }
      }
      RemoveStepEnds(all, k, Resolve(raw, kept));
      if |kept| != |headers| {
        dirty := true;
      }
      headers := kept;
    }

    // ----------------------------------------------------------------
    // Reading and writing
    // ----------------------------------------------------------------

    /** The first value of a key, compared without case. */
    method GetBytes(key: bytes) returns (r: Option<bytes>)
      requires Valid()
      ensures r == GetFirst(Content().headers, key)
    {
      hide Lower;
      ghost var all := Resolve(raw, headers);
      for i := 0 to |headers|
        invariant GetFirst(all, key) == GetFirst(all[i..], key)
      {
        var h := ResolveTuple(raw, headers[i]);
        assert all[i..][1..] == all[i + 1..];
        if EqIgnoreCase(h.key, key) {
          return Some(h.value);
        }
      }
      return None;
    }

    ghost function Output(): bytes
      requires Valid()
      reads this
    {
      OutputOf(Abs())
    }

    /** Writes the block to the end of `out`. */
    method Write(out: bytes) returns (written: bytes, n: nat)
      requires Valid()
      ensures written == out + Output() && n == |Output()|
    {
      hide FieldsText;
      if !dirty && |raw| > 0 {
        return out + raw, |raw|;
      }
      written, n := out, 0;
      var status := ResolveValue(raw, statusLine);
      if status.Some? && |status.value| > 0 {
        written := written + status.value + CRLF;
        n := n + |status.value| + 2;
      }
      written, n := WriteFields(written, n);
    }

    /** Writes the fields and the empty line behind them, and counts on from `count`. */
    method WriteFields(out: bytes, count: nat) returns (written: bytes, n: nat)
      requires Valid()
      ensures written == out + FieldsText(Content().headers) && n == count + |FieldsText(Content().headers)|
    {
      ghost var all := Resolve(raw, headers);
      written, n := out, count;
      for i := 0 to |headers|
        invariant FieldsStep(out, all, i, written)
        invariant n == count + (|written| - |out|)
      {
        var h := ResolveTuple(raw, headers[i]);
        ghost var before := written;
        if |h.key| > 0 {
          written := written + h.key + [COLON, SP];
          n := n + |h.key| + 2;
        }
        written := written + h.value;
        n := n + |h.value|;
        written := written + CRLF;
        n := n + 2;
        assert written == before + (FieldBody(h) + CRLF);
        FieldsStepOn(out, all, i, before);
      }
      written := written + CRLF;
      n := n + 2;
    }

    /** Two maps of one encoding are equal when they mean the same, however their entries are stored. */
    predicate Equals(other: HeaderMap)
      requires Valid() && other.Valid()
      reads this, other
      ensures Equals(other) <==> encoding == other.encoding && Content() == other.Content()
    {
      && encoding == other.encoding
      && ResolveValue(raw, statusLine) == ResolveValue(other.raw, other.statusLine)
      && |headers| == |other.headers|
      && forall i :: 0 <= i < |headers| ==> ResolveTuple(raw, headers[i]) == ResolveTuple(other.raw, other.headers[i])
    }
  }
}

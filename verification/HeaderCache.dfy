/**
 When the raw block of a header map may be written instead of its entries
 (fastwarc-rs/src/warc/header.rs, the `dirty` flag): reparsing it must give the
 same entries.
 */
module HeaderCache {
  import opened Wrappers
  import opened ByteStrings
  import opened HeaderScan
  import opened HeaderEdits
  import opened HeaderText

  // ------------------------------------------------------------------
  // A scan depends only on the text it consumes
  // ------------------------------------------------------------------

  lemma SameTextSlices(s: bytes, p: nat, e: nat, u: bytes, v: nat)
    requires SameText(s, p, e, u, v)
    ensures Text(s, p, e) == Text(u, v, v + (e - p))
  {
    forall i | 0 <= i < e - p
      ensures Text(s, p, e)[i] == Text(u, v, v + (e - p))[i]
    {
      assert s[p + i] == u[(p + i) + (v - p)];
    }
  }

  /** A terminator is found at the same place in any text that agrees up to it. */
  lemma EolTransfer(s: bytes, p: nat, end: nat, e: nat, u: bytes, v: nat, last: nat, quirks: bool)
    requires end <= |s| && NextEol(s, p, end, quirks) == Some(e)
    requires SameText(s, p, e, u, v) && v + (e - p) <= last <= |u|
    ensures NextEol(u, v, last, quirks) == Some(v + (e - p))
  {
    NextEolNarrow(s, p, e, end, quirks);
    NextEolShift(s, p, e, u, v, quirks);
    NextEolWider(u, v, v + (e - p), last, quirks);
  }

  /**
   The same scan on another text that agrees on what was consumed. If no empty
   line ended the block, the other text must end there, too.
   */
  lemma {:induction false} ScanTransfer(st: ScanState, s: bytes, p: nat, end: nat, u: bytes, v: nat, last: nat, quirks: bool)
    requires p <= end && (p < end ==> end <= |s|)
    requires var r := Scan(st, s, p, end, quirks);
             && (p < r.pos ==> SameText(s, p, r.pos, u, v))
             && v + (r.pos - p) <= last && (v < last ==> last <= |u|)
             && (!r.complete ==> last == v + (r.pos - p))
    ensures var r := Scan(st, s, p, end, quirks);
            Scan(st, u, v, last, quirks) == Scanned(r.state, v + (r.pos - p), r.complete)
    decreases end - p
  {
    hide PushLine, EndsBlock, Scan, NextEol, Text;
    if p < end {
      var next := NextEol(s, p, end, quirks);
      if next.None? {
        ScanLast(st, s, p, end, quirks);
        NextEolShift(s, p, end, u, v, quirks);
        ScanLast(st, u, v, last, quirks);
        SameTextSlices(s, p, end, u, v);
      } else {
        var e := next.value;
        ScanLine(st, s, p, end, quirks, e);
        assert SameText(s, p, e, u, v);
        EolTransfer(s, p, end, e, u, v, last, quirks);
        SameTextSlices(s, p, e, u, v);
        ScanLine(st, u, v, last, quirks, v + (e - p));
        if !EndsBlock(Text(s, p, e), quirks) {
          ScanTransfer(PushLine(st, Text(s, p, e)), s, e, end, u, v + (e - p), last, quirks);
        }
      }
    } else {
      ScanNothing(st, s, p, end, quirks);
      ScanNothing(st, u, v, last, quirks);
    }
  }

  // ------------------------------------------------------------------
  // States and edits of a header map
  // ------------------------------------------------------------------

  datatype MapState = MapState(dirty: bool, raw: bytes, block: Block)

  const EMPTY_MAP := MapState(false, [], EMPTY_BLOCK)

  datatype HeaderOp =
    | Parse(s: bytes, start: nat, end: nat, hasStatusLine: bool, quirks: bool)
    // A parse that failed behind the text from `start` to `stop`.
    | BrokenParse(s: bytes, start: nat, stop: nat, hasStatusLine: bool, quirks: bool)
    | SetStatus(status: bytes)
    | Set(key: bytes, value: bytes)
    | Append(key: bytes, value: bytes)
    | Remove(key: bytes)
    | Clear

  /** What `write` emits: the raw block while it is current, otherwise the fields. */
  function OutputOf(m: MapState): (r: bytes) {
    if !m.dirty && m.raw != [] then m.raw else Serialize(m.block)
  }

  predicate OpFits(op: HeaderOp) {
    && (op.Parse? ==> op.start <= op.end && (op.start < op.end ==> op.end <= |op.s|))
    && (op.BrokenParse? ==> op.start <= op.stop && (op.start < op.stop ==> op.stop <= |op.s|))
  }

  predicate Parses(op: HeaderOp) {
    op.Parse? || op.BrokenParse?
  }

  /** The raw block holds a status line that was put there by the caller. */
  predicate Seeded(m: MapState, hasStatusLine: bool) {
    !hasStatusLine && m.block.status.Some? && m.block.headers == [] && m.raw != []
  }

  /** The raw block a parse starts with, and what it means. */
  function SeedOf(m: MapState, hasStatusLine: bool): bytes {
    if Seeded(m, hasStatusLine) then m.raw else []
  }

  function InitOf(m: MapState, hasStatusLine: bool): ScanState {
    ScanState(if Seeded(m, hasStatusLine) then m.block else EMPTY_BLOCK, hasStatusLine)
  }

  /** How far a parse had come that failed: the lines it had interpreted, and where the unfinished one began. */
  function BrokenOff(m: MapState, op: HeaderOp): (r: (ScanState, nat))
    requires op.BrokenParse? && OpFits(op)
    ensures op.start <= r.1 <= op.stop
  {
    var seed, st := SeedOf(m, op.hasStatusLine), InitOf(m, op.hasStatusLine);
    UnfinishedBehind(seed, st, op.s, op.start, op.stop, op.quirks)
  }

  /** What a parse in this state has to do. */
  function TaskOf(m: MapState, op: HeaderOp): (t: Task)
    requires op.Parse? && OpFits(op)
  {
    var seed, st := SeedOf(m, op.hasStatusLine), InitOf(m, op.hasStatusLine);
    Task(seed, st, op.s, op.start, op.end, op.quirks, ScanBehind(seed, st, op.s, op.start, op.end, op.quirks))
  }

  lemma GoalInInput(m: MapState, op: HeaderOp)
    requires op.Parse? && OpFits(op)
    ensures op.start <= TaskOf(m, op).goal.pos <= op.end
  {
    hide Scan;
  }

  function ApplyOp(m: MapState, op: HeaderOp): (r: MapState)
    requires OpFits(op)
  {
    match op
    case Parse(_, _, _, _, _) =>
      var t := TaskOf(m, op);
      MapState(false, t.seed + Text(t.s, t.start, t.goal.pos), t.goal.state.block)
    case BrokenParse(_, _, _, _, _) =>
      MapState(false, SeedOf(m, op.hasStatusLine) + Text(op.s, op.start, op.stop), BrokenOff(m, op).0.block)
    case SetStatus(v) => MapState(true, m.raw, Block(Some(Sanitize(v, true)), m.block.headers))
    case Set(k, v) => MapState(true, m.raw, Block(m.block.status, SetField(m.block.headers, k, v)))
    case Append(k, v) => MapState(true, m.raw, Block(m.block.status, m.block.headers + [SanitizedField(k, v)]))
    case Remove(k) =>
      var b := Block(m.block.status, Without(m.block.headers, Sanitize(k, true)));
      MapState(m.dirty || b != m.block, m.raw, b)
    case Clear => EMPTY_MAP
  }

  /** What a parse that fails leaves behind: the map after as much of it as is in the raw block, still inside the block. */
  predicate LeftBroken(m: MapState, op: HeaderOp, after: MapState)
    requires op.Parse? && OpFits(op)
  {
    var taken := |after.raw| - |SeedOf(m, op.hasStatusLine)|;
    && 0 <= taken <= op.end - op.start
    && var broken := BrokenParse(op.s, op.start, op.start + taken, op.hasStatusLine, op.quirks);
    StillParsing(m, broken) && after == ApplyOp(m, broken)
  }

  lemma BreaksOff(m: MapState, op: HeaderOp, st: ScanState, raw: bytes, lineStart: nat)
    requires op.Parse? && OpFits(op)
    requires var t := TaskOf(m, op); |t.seed| <= |raw| && Parsing(t, st, raw, lineStart, Reached(t, raw))
    ensures LeftBroken(m, op, MapState(false, raw, st.block))
  {
    hide Scan, ScanBehind, NextEol, UnfinishedBehind, Parsing;
    ParsingIsBroken(TaskOf(m, op), st, raw, lineStart);
  }

  /** The header limit is below twice the length of the seed and the block. */
  predicate LimitHit(t: Task, maxHeaderLen: nat)
    requires t.goal.pos >= t.start
  {
    maxHeaderLen < |t.seed| + 2 * (t.goal.pos - t.start)
  }

  // ------------------------------------------------------------------
  // Cache agreement
  // ------------------------------------------------------------------

  /** A map that claims a current raw block equals the map obtained by reparsing that block. */
  predicate Agrees(m: MapState, hasStatusLine: bool, quirks: bool) {
    !m.dirty && m.raw != [] ==>
      var r := Scan(ScanState(EMPTY_BLOCK, hasStatusLine), m.raw, 0, |m.raw|, quirks);
      r.state.block == m.block && r.pos == |m.raw|
  }

  /** A parse into a fresh or used map leaves a raw block that reparses to the same content. */
  lemma FreshParseAgrees(m: MapState, op: HeaderOp)
    requires op.Parse? && OpFits(op) && !Seeded(m, op.hasStatusLine)
    ensures Agrees(ApplyOp(m, op), op.hasStatusLine, op.quirks)
  {
    hide PushLine, Scan;
    var st := ScanState(EMPTY_BLOCK, op.hasStatusLine);
    var r := Scan(st, op.s, op.start, op.end, op.quirks);
    var raw := Text(op.s, op.start, r.pos);
    assert [] + raw == raw;
    ScanTransfer(st, op.s, op.start, op.end, raw, 0, r.pos - op.start, op.quirks);
  }

  predicate EndsInEol(s: bytes, quirks: bool) {
    |s| >= SepLen(quirks) && EolAt(s, |s| - SepLen(quirks), quirks)
  }

  /** Reparsing the seed alone gives the map's content, and leaves the parser at the start of a line. */
  predicate SeedRescans(m: MapState, quirks: bool) {
    && Scan(ScanState(EMPTY_BLOCK, true), m.raw, 0, |m.raw|, quirks) == Scanned(ScanState(m.block, false), |m.raw|, false)
    && EndsInEol(m.raw, quirks)
  }

  /** Scanning past a point where a line ends is scanning from there. */
  lemma {:induction false} ScanResumes(st: ScanState, u: bytes, v: nat, mid: nat, last: nat, quirks: bool)
    requires v <= mid <= last <= |u| && (0 < v ==> u[v - 1] == LF)
    requires SepLen(quirks) <= mid && EolAt(u, mid - SepLen(quirks), quirks)
    requires !Scan(st, u, v, mid, quirks).complete
    ensures Scan(st, u, v, last, quirks) == Scan(Scan(st, u, v, mid, quirks).state, u, mid, last, quirks)
    decreases mid - v
  {
    hide PushLine, EndsBlock, Scan, NextEol;
    if v == mid {
      ScanNothing(st, u, v, mid, quirks);
    } else {
      NextEolExists(u, v, mid, quirks);
      var e := NextEol(u, v, mid, quirks).value;
      NextEolAt(u, v, mid, quirks, e);
      NextEolWider(u, v, mid, last, quirks);
      ScanLine(st, u, v, mid, quirks, e);
      ScanLine(st, u, v, last, quirks, e);
      ScanResumes(PushLine(st, Text(u, v, e)), u, e, mid, last, quirks);
    }
  }

  lemma {:induction false} NextEolExists(s: bytes, p: nat, end: nat, quirks: bool)
    requires end <= |s| && p + SepLen(quirks) <= end && EolAt(s, end - SepLen(quirks), quirks)
    ensures NextEol(s, p, end, quirks).Some?
    decreases end - p
  {
    if p + SepLen(quirks) < end {
      NextEolExists(s, p + 1, end, quirks);
    }
  }

  /** Behind a seed that rescans, the parse is a scan of the input alone. */
  lemma SeededParse(m: MapState, op: HeaderOp)
    requires op.Parse? && OpFits(op) && Seeded(m, op.hasStatusLine) && SeedRescans(m, op.quirks)
    ensures var r := Scan(ScanState(m.block, false), op.s, op.start, op.end, op.quirks);
            ApplyOp(m, op) == MapState(false, m.raw + Text(op.s, op.start, r.pos), r.state.block)
  {
    hide Scan, Text;
  }

  /** Scanning a seed and what is parsed behind it is scanning the one and then the other. */
  lemma ScanBehindSeed(m: MapState, op: HeaderOp, raw: bytes)
    requires op.Parse? && OpFits(op) && m.raw != [] && SeedRescans(m, op.quirks)
    requires var r := Scan(ScanState(m.block, false), op.s, op.start, op.end, op.quirks);
             raw == m.raw + Text(op.s, op.start, r.pos)
    ensures var r := Scan(ScanState(m.block, false), op.s, op.start, op.end, op.quirks);
            Scan(ScanState(EMPTY_BLOCK, true), raw, 0, |raw|, op.quirks) == Scanned(r.state, |raw|, r.complete)
  {
    hide PushLine, Scan;
    var init, st, n := ScanState(EMPTY_BLOCK, true), ScanState(m.block, false), |m.raw|;
    assert SameText(m.raw, 0, n, raw, 0);
    ScanTransfer(init, m.raw, 0, n, raw, 0, n, op.quirks);
    assert EolAt(raw, n - SepLen(op.quirks), op.quirks);
    ScanResumes(init, raw, 0, n, |raw|, op.quirks);
    ScanTransfer(st, op.s, op.start, op.end, raw, n, |raw|, op.quirks);
  }

  /** A seed that rescans keeps the cache right, whatever is parsed behind it. */
  lemma SeededParseAgrees(m: MapState, op: HeaderOp)
    requires op.Parse? && OpFits(op) && Seeded(m, op.hasStatusLine) && SeedRescans(m, op.quirks)
    ensures Agrees(ApplyOp(m, op), true, op.quirks)
  {
    hide Scan, ApplyOp, SeedRescans;
    SeededParse(m, op);
    ScanBehindSeed(m, op, ApplyOp(m, op).raw);
  }

  // ------------------------------------------------------------------
  // Parses that fail
  // ------------------------------------------------------------------

  /** The parse was still inside the block. */
  predicate StillParsing(m: MapState, op: HeaderOp)
    requires op.BrokenParse? && OpFits(op)
  {
    var line := BrokenOff(m, op).1;
    line < op.stop ==> NextEol(op.s, line, op.stop, op.quirks).None?
  }

  /** The unfinished line is empty, or it would have been ignored: it is no status line, folds nothing and has no colon. */
  predicate Settled(m: MapState, op: HeaderOp)
    requires op.BrokenParse? && OpFits(op)
  {
    var (st, line) := BrokenOff(m, op);
    var rest := Text(op.s, line, op.stop);
    rest == [] || (!st.expectStatus && !IsContinuation(rest) && Field(rest).None?)
  }

  /** At the end of the input the unfinished line counts. */
  lemma {:induction false} ScanFinishes(st: ScanState, s: bytes, p: nat, stop: nat, quirks: bool)
    requires p <= stop && (p < stop ==> stop <= |s|)
    requires var line := Unfinished(st, s, p, stop, quirks).1; line < stop ==> NextEol(s, line, stop, quirks).None?
    ensures var (r, line) := Unfinished(st, s, p, stop, quirks);
            Scan(st, s, p, stop, quirks) ==
            Scanned(if line < stop then PushLine(r, Text(s, line, stop)) else r, stop, false)
    decreases stop - p
  {
    hide PushLine, EndsBlock;
    if p < stop && NextEol(s, p, stop, quirks).Some? {
      var e := NextEol(s, p, stop, quirks).value;
      ScanFinishes(PushLine(st, s[p..e]), s, e, stop, quirks);
    }
  }

  lemma {:induction false} UnfinishedSettlesStatus(st: ScanState, s: bytes, p: nat, stop: nat, quirks: bool)
    requires (p < stop ==> stop <= |s|) && (st.expectStatus ==> st.block.status.None?)
    ensures var r := Unfinished(st, s, p, stop, quirks).0; r.expectStatus ==> r.block.status.None?
    decreases stop - p
  {
    hide EndsBlock, NextEol, Trim;
    if p < stop && NextEol(s, p, stop, quirks).Some? {
      var e := NextEol(s, p, stop, quirks).value;
      UnfinishedSettlesStatus(PushLine(st, s[p..e]), s, e, stop, quirks);
    }
  }

  /** Which lines change nothing. */
  lemma LineIsIgnoredIff(st: ScanState, line: bytes)
    requires st.expectStatus ==> st.block.status.None?
    ensures PushLine(st, line).block == st.block <==> !st.expectStatus && !IsContinuation(line) && Field(line).None?
  {
    hide Trim, Field;
    if !st.expectStatus && IsContinuation(line) && st.block.headers != [] {
      var hs := st.block.headers;
      assert |Fold(hs, Trim(line))[|hs| - 1].value| > |hs[|hs| - 1].value|;
    }
  }

  /** Behind a safe seed, what was read before the failure is the parse of that much of the input. */
  lemma BrokenScan(m: MapState, op: HeaderOp)
    requires op.BrokenParse? && SafeOp(m, op)
    ensures var (st, line) := BrokenOff(m, op);
            var raw := ApplyOp(m, op).raw;
            && (st.expectStatus ==> st.block.status.None?)
            && Scan(ScanState(EMPTY_BLOCK, op.hasStatusLine || Seeded(m, op.hasStatusLine)), raw, 0, |raw|, op.quirks) ==
               Scanned(if line < op.stop then PushLine(st, Text(op.s, line, op.stop)) else st, |raw|, false)
  {
    hide PushLine, Scan, Unfinished, EolAt, NextEol;
    var seed, init := SeedOf(m, op.hasStatusLine), InitOf(m, op.hasStatusLine);
    SafeSeedEnds(m, op);
    UnfinishedSettlesStatus(init, op.s, op.start, op.stop, op.quirks);
    ScanFinishes(init, op.s, op.start, op.stop, op.quirks);
    var raw := seed + Text(op.s, op.start, op.stop);
    if Seeded(m, op.hasStatusLine) {
      ScanBehindSeed(m, Parse(op.s, op.start, op.stop, op.hasStatusLine, op.quirks), raw);
    } else {
      assert raw == Text(op.s, op.start, op.stop);
      ScanTransfer(init, op.s, op.start, op.stop, raw, 0, |raw|, op.quirks);
    }
  }

  /** A seed that rescans ends with a line feed. */
  lemma SafeSeedEnds(m: MapState, op: HeaderOp)
    requires op.BrokenParse? && SafeOp(m, op)
    ensures BrokenOff(m, op) == Unfinished(InitOf(m, op.hasStatusLine), op.s, op.start, op.stop, op.quirks)
  {
    hide Scan, Unfinished;
  }

  /** A parse that failed leaves a raw block that reparses to the map exactly when the unfinished line was settled. */
  lemma BrokenAgreesIff(m: MapState, op: HeaderOp)
    requires op.BrokenParse? && SafeOp(m, op)
    ensures Agrees(ApplyOp(m, op), op.hasStatusLine || Seeded(m, op.hasStatusLine), op.quirks) <==> Settled(m, op)
  {
    hide PushLine, Scan, UnfinishedBehind, NextEol, Field, SeedRescans;
    BrokenScan(m, op);
    var (st, line) := BrokenOff(m, op);
    if line < op.stop {
      LineIsIgnoredIff(st, Text(op.s, line, op.stop));
    }
  }

  /** A field whose line was broken off is in the raw block, and thus in what is written, but not in the map. */
  lemma BrokenParseGoesStale(quirks: bool)
    ensures var a, text := Ascii("A:"), Ascii("A:b") + CRLF + CRLF;
            var op := BrokenParse(text, 0, 2, false, quirks);
            var m := ApplyOp(EMPTY_MAP, op);
            && SafeOp(EMPTY_MAP, op) && m == MapState(false, a, EMPTY_BLOCK) && OutputOf(m) == a
            && !Agrees(m, false, quirks)
            && Scan(ScanState(EMPTY_BLOCK, false), a, 0, 2, quirks).state.block == Block(None, [Header(Ascii("A"), [])])
  {
    hide Scan;
    var a, text := Ascii("A:"), Ascii("A:b") + CRLF + CRLF;
    var op := BrokenParse(text, 0, 2, false, quirks);
    assert Text(text, 0, 2) == a == [65, COLON];
    assert NextEol(text, 0, 2, quirks).None? && NextEol(a, 0, 2, quirks).None?;
    assert [] + a == a && a[..1] == [65] && a[2..] == [] && Ascii("A") == [65];
    assert Field(a) == Some(Header([65], []));
    ScanLast(ScanState(EMPTY_BLOCK, false), a, 0, 2, quirks);
    assert Text(a, 0, 2) == a && !IsContinuation(a);
    BrokenAgreesIff(EMPTY_MAP, op);
  }

  // ------------------------------------------------------------------
  // Runs
  // ------------------------------------------------------------------

  /** The mode to reparse in. */
  function ModeAfter(m: MapState, op: HeaderOp, mode: (bool, bool)): (bool, bool) {
    if Parses(op) then (op.hasStatusLine || Seeded(m, op.hasStatusLine), op.quirks) else mode
  }

  /** No parse goes behind a seed that does not rescan. */
  predicate SafeOp(m: MapState, op: HeaderOp) {
    && OpFits(op)
    && (Parses(op) && Seeded(m, op.hasStatusLine) ==> SeedRescans(m, op.quirks))
    && (op.BrokenParse? ==> StillParsing(m, op))
  }

  /**
   The raw block does not reparse to the map: the last operation that changed the
   map was a parse that failed inside a line that counts.
   */
  predicate StaleAfter(m: MapState, op: HeaderOp, stale: bool)
    requires OpFits(op)
  {
    match op
    case BrokenParse(_, _, _, _, _) => !Settled(m, op)
    case Remove(key) => stale && Without(m.block.headers, Sanitize(key, true)) == m.block.headers
    case _ => false
  }

  lemma OpAgreesIff(m: MapState, op: HeaderOp, mode: (bool, bool), stale: bool)
    requires SafeOp(m, op) && (Agrees(m, mode.0, mode.1) <==> !stale)
    ensures var after := ModeAfter(m, op, mode);
            Agrees(ApplyOp(m, op), after.0, after.1) <==> !StaleAfter(m, op, stale)
  {
    hide Scan, Sanitize, SeedRescans, UnfinishedBehind, StillParsing, Settled;
    if op.Parse? {
      if Seeded(m, op.hasStatusLine) {
        SeededParseAgrees(m, op);
      } else {
        FreshParseAgrees(m, op);
      }
    } else if op.BrokenParse? {
      BrokenAgreesIff(m, op);
    }
  }

  /** The states of a run. */
  function RunOps(m: MapState, ops: seq<HeaderOp>): (r: MapState)
    requires SafeRun(m, ops)
    decreases |ops|
  {
    if ops == [] then m else RunOps(ApplyOp(m, ops[0]), ops[1..])
  }

  predicate SafeRun(m: MapState, ops: seq<HeaderOp>)
    decreases |ops|
  {
    ops == [] || (SafeOp(m, ops[0]) && SafeRun(ApplyOp(m, ops[0]), ops[1..]))
  }

  /** The mode of the last parse of a run, in which its raw block is to be reparsed. */
  function ModeAfterRun(m: MapState, ops: seq<HeaderOp>, mode: (bool, bool)): (last: (bool, bool))
    requires SafeRun(m, ops)
    decreases |ops|
  {
    if ops == [] then mode else ModeAfterRun(ApplyOp(m, ops[0]), ops[1..], ModeAfter(m, ops[0], mode))
  }

  predicate StaleAfterRun(m: MapState, ops: seq<HeaderOp>, stale: bool)
    requires SafeRun(m, ops)
    decreases |ops|
  {
    if ops == [] then stale else StaleAfterRun(ApplyOp(m, ops[0]), ops[1..], StaleAfter(m, ops[0], stale))
  }

  /**
   In every state a run can reach, also by parses that fail, a map that is not
   dirty equals the reparse of its raw block, unless the last operation that
   changed it was a parse that failed inside a line that counts.
   */
  lemma {:induction false} RunAgreesIff(m: MapState, ops: seq<HeaderOp>, mode: (bool, bool), stale: bool)
    requires SafeRun(m, ops) && (Agrees(m, mode.0, mode.1) <==> !stale)
    ensures var last := ModeAfterRun(m, ops, mode);
            Agrees(RunOps(m, ops), last.0, last.1) <==> !StaleAfterRun(m, ops, stale)
    decreases |ops|
  {
    hide Agrees, ApplyOp, SeedRescans, StaleAfter, StillParsing;
    if ops != [] {
      OpAgreesIff(m, ops[0], mode, stale);
      RunAgreesIff(ApplyOp(m, ops[0]), ops[1..], ModeAfter(m, ops[0], mode), StaleAfter(m, ops[0], stale));
    }
  }

  // ------------------------------------------------------------------
  // Exactly which seeds are harmless
  // ------------------------------------------------------------------

  /** A parse of `s` behind the raw block of `m`. */
  function ParseBehind(m: MapState, s: bytes, quirks: bool): (r: MapState) {
    ApplyOp(m, Parse(s, 0, |s|, false, quirks))
  }

  /** A folded line; at the start of a line it makes a field of its own. */
  const PROBE: bytes := [SP, 120, CR, LF]

  /**
   Parsing behind a seed is safe for every input exactly when the seed rescans:
   reparsing it alone gives the content of the map, without reaching an empty
   line, and it ends with a line terminator.
   */
  lemma SeedIsSafeIffRescans(m: MapState, quirks: bool)
    requires Seeded(m, false)
    ensures (forall s :: Agrees(ParseBehind(m, s, quirks), true, quirks)) <==> SeedRescans(m, quirks)
  {
    hide Scan, ScanBehind;
    if SeedRescans(m, quirks) {
      forall s
        ensures Agrees(ParseBehind(m, s, quirks), true, quirks)
      {
        SeededParseAgrees(m, Parse(s, 0, |s|, false, quirks));
      }
    } else if forall s :: Agrees(ParseBehind(m, s, quirks), true, quirks) {
      assert Agrees(ParseBehind(m, [], quirks), true, quirks);
      assert Agrees(ParseBehind(m, PROBE, quirks), true, quirks);
      EmptyParseBehind(m, quirks);
      ProbeBehind(m, quirks);
      SeedMeetsProbe(m, quirks);
    }
  }

  /** A status line that was edited before parsing goes stale: the parse forgets the edit was made. */
  lemma EditedSeedIsStale(m: MapState, status: bytes, quirks: bool)
    requires Seeded(m, false) && SeedRescans(m, quirks) && Sanitize(status, true) != m.block.status.value
    ensures !Agrees(ParseBehind(ApplyOp(m, SetStatus(status)), [], quirks), true, quirks)
  {
    hide Scan, ScanBehind, Sanitize;
    EmptyParseBehind(ApplyOp(m, SetStatus(status)), quirks);
  }

  lemma EmptyParseBehind(m: MapState, quirks: bool)
    requires Seeded(m, false)
    ensures ParseBehind(m, [], quirks) == MapState(false, m.raw, m.block)
  {
    assert m.raw + [] == m.raw;
  }

  lemma ProbeBehind(m: MapState, quirks: bool)
    requires Seeded(m, false)
    ensures ParseBehind(m, PROBE, quirks) == MapState(false, m.raw + PROBE, Block(m.block.status, [Header([], [120])]))
  {
    hide PushLine;
    var st := ScanState(m.block, false);
    assert [] + PROBE == PROBE;
    ProbeIsLine([], 0, quirks);
    ScanLine(st, PROBE, 0, 4, quirks, 4);
    ScanNothing(PushLine(st, PROBE), PROBE, 4, 4, quirks);
    ProbeFolds(st);
    assert Text(PROBE, 0, 4) == PROBE;
  }

  lemma ProbeFolds(st: ScanState)
    requires !st.expectStatus && st.block.headers == []
    ensures PushLine(st, PROBE) == ScanState(Block(st.block.status, [Header([], [120])]), false)
  {
    TrimMiddle([SP], [120], CRLF);
    assert [SP] + [120] + CRLF == PROBE;
  }

  /** The probe completes any line it is appended to, and never ends the block. */
  lemma ProbeIsLine(l: bytes, v: nat, quirks: bool)
    requires v <= |l| && NextEol(l, v, |l|, quirks).None?
    ensures NextEol(l + PROBE, v, |l| + 4, quirks) == Some(|l| + 4)
    ensures Text(l + PROBE, v, |l| + 4) == Text(l, v, |l|) + PROBE
    ensures !EndsBlock(Text(l, v, |l|) + PROBE, quirks)
  {
    var s := l + PROBE;
    var line := Text(l, v, |l|) + PROBE;
    NextEolShift(l, v, |l|, s, v, quirks);
    EolBehind(s, v, |l|, |s|, quirks);
    assert s[|l|] == SP && s[|l| + 1] == 120 && s[|l| + 2] == CR && s[|l| + 3] == LF;
    NextEolAtProbe(s, |l|, quirks);
    TrimEndEmpty(line);
    assert line[|line| - 3] == 120;
  }

  lemma NextEolAtProbe(s: bytes, p: nat, quirks: bool)
    requires p + 4 == |s| && s[p] == SP && s[p + 1] == 120 && s[p + 2] == CR && s[p + 3] == LF
    ensures NextEol(s, p, |s|, quirks) == Some(p + 4)
  {
    assert NextEol(s, p, |s|, quirks) == NextEol(s, p + 1, |s|, quirks) == NextEol(s, p + 2, |s|, quirks);
  }

  /** A line that added no field adds none with the probe behind it, either. */
  lemma ProbeDrops(st: ScanState, line: bytes)
    requires line != [] && PushLine(st, line).block.headers == []
    ensures PushLine(st, line + PROBE).block.headers == []
  {
    hide Trim;
    IndexOfFirst(line, COLON);
    IndexOfFirst(line + PROBE, COLON);
  }

  lemma {:induction false} UnfinishedSeedDrops(st: ScanState, l: bytes, v: nat, quirks: bool)
    requires v < |l| && !EndsInEol(l, quirks)
    requires var r := Scan(st, l, v, |l|, quirks); !r.complete && r.state.block.headers == []
    ensures Scan(st, l + PROBE, v, |l| + 4, quirks).state.block.headers == []
    decreases |l| - v
  {
    hide PushLine, EndsBlock, Scan, NextEol;
    var s := l + PROBE;
    var next := NextEol(l, v, |l|, quirks);
    if next.None? {
      var line := Text(l, v, |l|);
      ScanLast(st, l, v, |l|, quirks);
      ProbeIsLine(l, v, quirks);
      ScanLine(st, s, v, |s|, quirks, |s|);
      ScanNothing(PushLine(st, line + PROBE), s, |s|, |s|, quirks);
      ProbeDrops(st, line);
    } else {
      var e := next.value;
      NextEolAt(l, v, |l|, quirks, e);
      ScanLine(st, l, v, |l|, quirks, e);
      EolTransfer(l, v, |l|, e, s, v, |s|, quirks);
      SameTextSlices(l, v, e, s, v);
      ScanLine(st, s, v, |s|, quirks, e);
      UnfinishedSeedDrops(PushLine(st, Text(l, v, e)), l, e, quirks);
    }
  }

  lemma {:induction false} ScanSettlesStatus(st: ScanState, s: bytes, p: nat, end: nat, quirks: bool)
    requires (p < end ==> end <= |s|) && (st.expectStatus ==> st.block.status.None?)
    ensures var r := Scan(st, s, p, end, quirks).state; r.expectStatus ==> r.block.status.None?
    decreases end - p
  {
    hide EndsBlock, NextEol, Trim;
    if p < end && NextEol(s, p, end, quirks).Some? {
      var e := NextEol(s, p, end, quirks).value;
      ScanSettlesStatus(PushLine(st, s[p..e]), s, e, end, quirks);
    }
  }

  lemma SeedMeetsProbe(m: MapState, quirks: bool)
    requires Seeded(m, false)
    requires Agrees(MapState(false, m.raw, m.block), true, quirks)
    requires Agrees(MapState(false, m.raw + PROBE, Block(m.block.status, [Header([], [120])])), true, quirks)
    ensures SeedRescans(m, quirks)
  {
    hide PushLine, Scan, EndsInEol;
    var init, n := ScanState(EMPTY_BLOCK, true), |m.raw|;
    var r := Scan(init, m.raw, 0, n, quirks);
    ScanSettlesStatus(init, m.raw, 0, n, quirks);
    assert SameText(m.raw, 0, n, m.raw + PROBE, 0);
    if r.complete {
      ScanTransfer(init, m.raw, 0, n, m.raw + PROBE, 0, n + 4, quirks);
    } else if !EndsInEol(m.raw, quirks) {
      UnfinishedSeedDrops(init, m.raw, 0, quirks);
    }
  }
}

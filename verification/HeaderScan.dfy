/**
 What a header block means, independent of buffers and offsets
 (fastwarc-rs/src/warc/header.rs): the input is cut at line terminators, and
 each line updates the list of named fields, until an empty line ends the block.
 */
module HeaderScan {
  import opened Wrappers
  import opened ByteStrings

  datatype Header = Header(key: bytes, value: bytes)

  /** The logical content of a header map. */
  datatype Block = Block(status: Option<bytes>, headers: seq<Header>)

  datatype ScanState = ScanState(block: Block, expectStatus: bool)

  /** The result of scanning: final state, position behind the block, and whether an empty line ended it. */
  datatype Scanned = Scanned(state: ScanState, pos: nat, complete: bool)

  const EMPTY_BLOCK := Block(None, [])

  // ------------------------------------------------------------------
  // Line terminators
  // ------------------------------------------------------------------

  /** Strict mode ends lines with CRLF, quirks mode with LF. */
  function SepLen(quirks: bool): nat { if quirks then 1 else 2 }

  predicate EolAt(s: bytes, i: nat, quirks: bool)
    requires i + SepLen(quirks) <= |s|
  {
    if quirks then s[i] == LF else s[i] == CR && s[i + 1] == LF
  }

  /** The position behind the first line terminator that lies within `p..end`. */
  function NextEol(s: bytes, p: nat, end: nat, quirks: bool): (r: Option<nat>)
    requires end <= |s|
    ensures r.Some? ==> p + SepLen(quirks) <= r.value <= end
    decreases end - p
  {
    if p + SepLen(quirks) > end then None
    else if EolAt(s, p, quirks) then Some(p + SepLen(quirks))
    else NextEol(s, p + 1, end, quirks)
  }

  lemma {:induction false} NextEolAt(s: bytes, p: nat, end: nat, quirks: bool, e: nat)
    requires end <= |s| && NextEol(s, p, end, quirks) == Some(e)
    ensures EolAt(s, e - SepLen(quirks), quirks)
    decreases end - p
  {
    if !EolAt(s, p, quirks) {
      NextEolAt(s, p + 1, end, quirks, e);
    }
  }

  lemma {:induction false} NextEolReaches(s: bytes, p: nat, q: nat, end: nat, quirks: bool)
    requires q <= end <= |s| && NextEol(s, p, q, quirks).None? && NextEol(s, p, end, quirks).Some?
    ensures NextEol(s, p, end, quirks).value > q
    decreases end - p
  {
    if p + SepLen(quirks) <= q {
      NextEolReaches(s, p + 1, q, end, quirks);
    }
  }

  /** No terminator straddles `q`. */
  predicate CleanCut(s: bytes, p: nat, q: nat, quirks: bool)
    requires q <= |s|
  {
    quirks || !(p < q < |s| && s[q - 1] == CR && s[q] == LF)
  }

  /** A terminator found behind an unfinished line ends that line. */
  lemma {:induction false} EolBehind(s: bytes, p: nat, q: nat, end: nat, quirks: bool)
    requires p <= q <= end <= |s|
    requires NextEol(s, p, q, quirks).None? && CleanCut(s, p, q, quirks)
    ensures NextEol(s, p, end, quirks) == NextEol(s, q, end, quirks)
    decreases q - p
  {
    if p < q {
      EolBehind(s, p + 1, q, end, quirks);
    }
  }

  lemma {:induction false} NextEolWider(s: bytes, p: nat, q: nat, end: nat, quirks: bool)
    requires q <= end <= |s| && NextEol(s, p, q, quirks).Some?
    ensures NextEol(s, p, end, quirks) == NextEol(s, p, q, quirks)
    decreases q - p
  {
    if !EolAt(s, p, quirks) {
      NextEolWider(s, p + 1, q, end, quirks);
    }
  }

  lemma {:induction false} NextEolNarrow(s: bytes, p: nat, e: nat, end: nat, quirks: bool)
    requires end <= |s| && NextEol(s, p, end, quirks) == Some(e)
    ensures NextEol(s, p, e, quirks) == Some(e)
    decreases end - p
  {
    if !EolAt(s, p, quirks) {
      NextEolNarrow(s, p + 1, e, end, quirks);
    }
  }

  /** `s` from `p` to `end` reads the same as `t` from `q` on. */
  ghost predicate SameText(s: bytes, p: nat, end: nat, t: bytes, q: nat) {
    p <= end <= |s| && q + (end - p) <= |t| && forall i :: p <= i < end ==> s[i] == t[i + (q - p)]
  }

  /** Only the text between the bounds matters. */
  lemma {:induction false} NextEolShift(s: bytes, p: nat, end: nat, t: bytes, q: nat, quirks: bool)
    requires SameText(s, p, end, t, q)
    ensures var r := NextEol(s, p, end, quirks);
            NextEol(t, q, q + (end - p), quirks) == if r.Some? then Some(r.value - p + q) else None
    decreases end - p
  {
    if p + SepLen(quirks) <= end {
      assert EolAt(s, p, quirks) == EolAt(t, q, quirks) by {
        assert s[p] == t[q] && (!quirks ==> s[p + 1] == t[q + 1]);
      }
      NextEolShift(s, p + 1, end, t, q + 1, quirks);
    }
  }

  /** What a chunk, the text from `c` to `d`, shows about the line it continues. */
  lemma ChunkEol(s: bytes, line: nat, c: nat, d: nat, chunk: bytes, from: nat, end: nat, quirks: bool)
    requires c + from < d <= end <= |s| && chunk == Text(s, c, d)
    requires line <= c + from && (line < c + from ==> NextEol(s, line, c + from, quirks).None?)
    requires CleanCut(s, line, c + from, quirks)
    ensures var eol := NextEol(chunk, from, d - c, quirks);
            if eol.None? then NextEol(s, line, d, quirks).None?
            else NextEol(s, line, end, quirks) == Some(c + eol.value)
  {
    assert SameText(chunk, from, d - c, s, c + from);
    NextEolShift(chunk, from, d - c, s, c + from, quirks);
    EolBehind(s, line, c + from, d, quirks);
    if NextEol(chunk, from, d - c, quirks).Some? {
      NextEolWider(s, line, d, end, quirks);
    }
  }

  // ------------------------------------------------------------------
  // Lines
  // ------------------------------------------------------------------

  /** The line that ends a header block. */
  predicate EndsBlock(line: bytes, quirks: bool) {
    if quirks then TrimEnd(line) == [] else |line| == 2
  }

  /**
   The test the parser makes on a complete line. It uses 2 for the terminator
   length also in quirks mode when a CRLF was split over two buffers.
   */
  lemma EndsBlockTest(s: bytes, p: nat, end: nat, quirks: bool, e: nat, sepLen: nat)
    requires p < end <= |s| && NextEol(s, p, end, quirks) == Some(e)
    requires sepLen == SepLen(quirks) || (sepLen == 2 && p + 2 <= e && s[e - 2] == CR)
    ensures EndTest(Text(s, p, e), sepLen, quirks) <==> EndsBlock(Text(s, p, e), quirks)
  {
    var line := s[p..e];
    NextEolAt(s, p, end, quirks, e);
    assert line[|line| - 1] == s[e - 1] == LF;
    if quirks && |line| == sepLen {
      assert |line| == 2 ==> line[0] == s[e - 2];
      TrimEndEmpty(line);
    }
  }

  predicate IsContinuation(line: bytes) {
    line != [] && (line[0] == SP || line[0] == TAB)
  }

  /** Line folding as in section 5.2 of RFC 9112: the text joins the previous value. */
  function Fold(headers: seq<Header>, text: bytes): (r: seq<Header>) {
    if headers == [] then [Header([], text)]
    else
      var last := headers[|headers| - 1];
      headers[|headers| - 1 := Header(last.key, last.value + [SP] + text)]
  }

  /** The field a line denotes, if it has a colon. */
  function Field(line: bytes): (r: Option<Header>) {
    match IndexOf(line, COLON)
    case None => None
    case Some(c) => Some(Header(Trim(line[..c]), Trim(line[c + 1..])))
  }

  /** The effect of one line on the block. */
  function PushLine(st: ScanState, line: bytes): (r: ScanState) {
    var Block(status, headers) := st.block;
    if st.expectStatus then ScanState(Block(Some(Trim(line)), headers), false)
    else if IsContinuation(line) then st.(block := Block(status, Fold(headers, Trim(line))))
    else
      match Field(line)
      case Some(h) => st.(block := Block(status, headers + [h]))
      case None => st
  }

  /** The meaning of the text from `p` on, when a line begins at `p`. */
  function Scan(st: ScanState, s: bytes, p: nat, end: nat, quirks: bool): (r: Scanned)
    requires p < end ==> end <= |s|
    ensures p <= end ==> p <= r.pos <= end
    decreases end - p
  {
    if p >= end then Scanned(st, p, false)
    else
      match NextEol(s, p, end, quirks)
      case None => Scanned(PushLine(st, s[p..end]), end, false)
      case Some(e) =>
        if EndsBlock(s[p..e], quirks) then Scanned(st, e, true)
        else Scan(PushLine(st, s[p..e]), s, e, end, quirks)
  }

  /**
   Scanning behind a seed that is already in the raw block. A seed that ends in
   CR captures a following LF as a line of its own.
   */
  function ScanBehind(seed: bytes, st: ScanState, s: bytes, p: nat, end: nat, quirks: bool): (r: Scanned)
    requires p < end ==> end <= |s|
    ensures p <= end ==> p <= r.pos <= end
  {
    if p < end && seed != [] && seed[|seed| - 1] == CR && s[p] == LF then
      if quirks then Scanned(st, p + 1, true) else Scan(PushLine(st, [LF]), s, p + 1, end, quirks)
    else
      Scan(st, s, p, end, quirks)
  }

  lemma ScanLine(st: ScanState, s: bytes, p: nat, end: nat, quirks: bool, e: nat)
    requires end <= |s| && NextEol(s, p, end, quirks) == Some(e)
    ensures var line := Text(s, p, e);
            Scan(st, s, p, end, quirks) ==
            if EndsBlock(line, quirks) then Scanned(st, e, true) else Scan(PushLine(st, line), s, e, end, quirks)
  {
  }

  lemma ScanLast(st: ScanState, s: bytes, p: nat, end: nat, quirks: bool)
    requires p < end <= |s| && NextEol(s, p, end, quirks).None?
    ensures Scan(st, s, p, end, quirks) == Scanned(PushLine(st, Text(s, p, end)), end, false)
  {
  }

  lemma ScanNothing(st: ScanState, s: bytes, p: nat, end: nat, quirks: bool)
    requires p >= end
    ensures Scan(st, s, p, end, quirks) == Scanned(st, p, false)
  {
  }

  /** A block is read at least as far as a line is known to go on. */
  lemma ScanReaches(st: ScanState, s: bytes, p: nat, q: nat, end: nat, quirks: bool)
    requires p <= q <= end && (p < end ==> end <= |s|)
    requires p < end ==> NextEol(s, p, q, quirks).None?
    ensures Scan(st, s, p, end, quirks).pos >= q
  {
    if p < end && NextEol(s, p, end, quirks).Some? {
      NextEolReaches(s, p, q, end, quirks);
    }
  }

  // ------------------------------------------------------------------
  // A scan that is broken off
  // ------------------------------------------------------------------

  /** What the complete lines of the text from `p` to `stop` mean, and where the unfinished one begins. */
  function Unfinished(st: ScanState, s: bytes, p: nat, stop: nat, quirks: bool): (r: (ScanState, nat))
    requires p < stop ==> stop <= |s|
    ensures p <= stop ==> p <= r.1 <= stop
    decreases stop - p
  {
    if p >= stop then (st, p)
    else
      match NextEol(s, p, stop, quirks)
      case None => (st, p)
      case Some(e) =>
        if EndsBlock(s[p..e], quirks) then (st, p) else Unfinished(PushLine(st, s[p..e]), s, e, stop, quirks)
  }

  /** The same behind a seed. */
  function UnfinishedBehind(seed: bytes, st: ScanState, s: bytes, p: nat, stop: nat, quirks: bool): (r: (ScanState, nat))
    requires p < stop ==> stop <= |s|
    ensures p <= stop ==> p <= r.1 <= stop
  {
    if p < stop && seed != [] && seed[|seed| - 1] == CR && s[p] == LF then
      if quirks then (st, p) else Unfinished(PushLine(st, [LF]), s, p + 1, stop, quirks)
    else
      Unfinished(st, s, p, stop, quirks)
  }

  /** Reading on goes on from the unfinished line. */
  lemma {:induction false} UnfinishedOn(st: ScanState, s: bytes, p: nat, stop: nat, next: nat, quirks: bool)
    requires p <= stop <= next <= |s|
    ensures var r := Unfinished(st, s, p, stop, quirks);
            Unfinished(st, s, p, next, quirks) == Unfinished(r.0, s, r.1, next, quirks)
    decreases stop - p
  {
    hide PushLine, EndsBlock;
    if p < stop && NextEol(s, p, stop, quirks).Some? {
      var e := NextEol(s, p, stop, quirks).value;
      NextEolWider(s, p, stop, next, quirks);
      if !EndsBlock(s[p..e], quirks) {
        UnfinishedOn(PushLine(st, s[p..e]), s, e, stop, next, quirks);
      }
    }
  }

  lemma UnfinishedBehindOn(seed: bytes, st: ScanState, s: bytes, p: nat, stop: nat, next: nat, quirks: bool)
    requires p <= stop < next <= |s|
    requires seed != [] && seed[|seed| - 1] == CR && s[p] == LF ==> !quirks && p < stop
    ensures var r := UnfinishedBehind(seed, st, s, p, stop, quirks);
            UnfinishedBehind(seed, st, s, p, next, quirks) == Unfinished(r.0, s, r.1, next, quirks)
  {
    hide PushLine, EndsBlock, Unfinished;
    if seed != [] && seed[|seed| - 1] == CR && s[p] == LF {
      UnfinishedOn(PushLine(st, [LF]), s, p + 1, stop, next, quirks);
    } else {
      UnfinishedOn(st, s, p, stop, next, quirks);
    }
  }

  /** With its terminator, the unfinished line is interpreted, and the next one begins. */
  lemma UnfinishedLine(st: ScanState, s: bytes, p: nat, end: nat, e: nat, quirks: bool)
    requires end <= |s| && NextEol(s, p, end, quirks) == Some(e) && !EndsBlock(Text(s, p, e), quirks)
    ensures Unfinished(st, s, p, e, quirks) == (PushLine(st, Text(s, p, e)), e)
  {
    hide PushLine, EndsBlock;
    NextEolNarrow(s, p, e, end, quirks);
  }

  lemma UnfinishedNone(st: ScanState, s: bytes, p: nat, stop: nat, quirks: bool)
    requires p < stop ==> stop <= |s| && NextEol(s, p, stop, quirks).None?
    ensures Unfinished(st, s, p, stop, quirks) == (st, p)
  {
  }

  // ------------------------------------------------------------------
  // The parser's position
  // ------------------------------------------------------------------

  /** What one parse is about: the seed and its meaning, the input from `start` to `end`, and the outcome it must reach. */
  datatype Task = Task(seed: bytes, init: ScanState, s: bytes, start: nat, end: nat, quirks: bool, goal: Scanned)

  /**
   The parser stands at `p`: the raw block is the seed and the text read since
   `start`, the unfinished line begins at `lineStart` of it, the lines in front
   of it are interpreted, and scanning on from that line leads to the goal.
   */
  ghost predicate Parsing(t: Task, st: ScanState, raw: bytes, lineStart: nat, p: nat) {
    && t.start <= p <= t.end && (t.start < t.end ==> t.end <= |t.s|)
    && raw == t.seed + Text(t.s, t.start, p)
    && |t.seed| <= lineStart <= |raw|
    && var line := LineAt(t, lineStart);
    && line <= p
    && (line < p ==> NextEol(t.s, line, p, t.quirks).None?)
    && (t.start < line == p ==> t.s[p - 1] == LF)
    && t.goal == Scan(st, t.s, line, t.end, t.quirks)
    && Interpreted(t, st, line, p) && (CrSeed(t) ==> !t.quirks && t.start < p)
  }

  /** Broken off at `p`, the scan has interpreted the lines in front of `line`. */
  ghost predicate Interpreted(t: Task, st: ScanState, line: nat, p: nat)
    requires t.start < p ==> p <= |t.s|
  {
    UnfinishedBehind(t.seed, t.init, t.s, t.start, p, t.quirks) == (st, line)
  }

  /** Reading on in the unfinished line, or up to the end of it. */
  lemma InterpretedOn(t: Task, st: ScanState, line: nat, p: nat, q: nat)
    requires t.start <= line <= p < q <= t.end <= |t.s| && Interpreted(t, st, line, p)
    requires CrSeed(t) ==> !t.quirks && t.start < p
    ensures NextEol(t.s, line, q, t.quirks).None? ==> Interpreted(t, st, line, q)
    ensures NextEol(t.s, line, t.end, t.quirks) == Some(q) && !EndsBlock(Text(t.s, line, q), t.quirks) ==>
              Interpreted(t, PushLine(st, Text(t.s, line, q)), q, q)
  {
    hide PushLine, EndsBlock, Unfinished, UnfinishedBehind;
    UnfinishedBehindOn(t.seed, t.init, t.s, t.start, p, q, t.quirks);
    if NextEol(t.s, line, q, t.quirks).None? {
      UnfinishedNone(st, t.s, line, q, t.quirks);
    }
    if NextEol(t.s, line, t.end, t.quirks) == Some(q) && !EndsBlock(Text(t.s, line, q), t.quirks) {
      UnfinishedLine(st, t.s, line, t.end, q, t.quirks);
    }
  }

  /** Where in the input the line at `lineStart` of the raw block begins. */
  ghost function LineAt(t: Task, lineStart: nat): nat
    requires |t.seed| <= lineStart
  {
    t.start + (lineStart - |t.seed|)
  }

  /** The line the parser is in is not finished yet. */
  lemma ParsingUnfinished(t: Task, st: ScanState, raw: bytes, lineStart: nat, p: nat)
    requires Parsing(t, st, raw, lineStart, p)
    ensures t.start <= p <= t.end && (t.start < t.end ==> t.end <= |t.s|)
    ensures |t.seed| <= lineStart <= |raw| && |raw| == |t.seed| + (p - t.start)
    ensures var line := LineAt(t, lineStart); line <= p && (line < p ==> NextEol(t.s, line, p, t.quirks).None?)
  {
    hide Scan, NextEol;
  }

  /** The line the parser is in, begun in the raw block and read on up to `q`. */
  lemma ParsingLine(t: Task, st: ScanState, raw: bytes, lineStart: nat, p: nat, q: nat)
    requires Parsing(t, st, raw, lineStart, p) && p <= q <= t.end
    ensures raw + Text(t.s, p, q) == t.seed + Text(t.s, t.start, q)
    ensures LineOf(raw, Text(t.s, p, q), lineStart) == Text(t.s, LineAt(t, lineStart), q)
    ensures |raw| == |t.seed| + (p - t.start) && |raw + Text(t.s, p, q)| == |t.seed| + (q - t.start)
  {
    hide Scan, NextEol, UnfinishedBehind, Interpreted, Text;
    TextAppend(t.seed, t.s, t.start, p, q);
    TextBehind(t.seed, t.s, t.start, LineAt(t, lineStart), q);
    TextBehind(t.seed, t.s, t.start, p, p);
  }

  /** The line that is complete once `part` is read. */
  function LineOf(raw: bytes, part: bytes, lineStart: nat): (r: bytes)
    requires lineStart <= |raw|
  {
    (raw + part)[lineStart..]
  }

  /** The parser's end-of-block test. */
  predicate EndTest(line: bytes, sepLen: nat, quirks: bool) {
    |line| == sepLen || (quirks && TrimEnd(line) == [])
  }

  /** Text without terminator makes the line longer. */
  lemma ParsingLineGrows(t: Task, st: ScanState, raw: bytes, lineStart: nat, p: nat, q: nat)
    requires Parsing(t, st, raw, lineStart, p) && p < q <= t.end
    requires NextEol(t.s, LineAt(t, lineStart), q, t.quirks).None?
    ensures Parsing(t, st, raw + Text(t.s, p, q), lineStart, q)
    ensures q <= t.goal.pos && |raw| == |t.seed| + (p - t.start)
  {
    ParsingLine(t, st, raw, lineStart, p, q);
    InterpretedOn(t, st, LineAt(t, lineStart), p, q);
    ScanReaches(st, t.s, LineAt(t, lineStart), q, t.end, t.quirks);
  }

  /** Behind a complete line the parser stands at the start of the next one. */
  lemma ParsingNextLine(t: Task, st: ScanState, raw: bytes, q: nat)
    requires t.start < q <= t.end <= |t.s| && t.s[q - 1] == LF
    requires raw == t.seed + Text(t.s, t.start, q)
    requires t.goal == Scan(st, t.s, q, t.end, t.quirks)
    requires Interpreted(t, st, q, q) && (CrSeed(t) ==> !t.quirks)
    ensures Parsing(t, st, raw, |raw|, q)
  {
    TextBehind(t.seed, t.s, t.start, q, q);
  }

  /** A complete line either ends the block at the goal, or is interpreted and left behind. */
  lemma ParsingLineDone(t: Task, st: ScanState, raw: bytes, lineStart: nat, p: nat, q: nat, sepLen: nat)
    requires Parsing(t, st, raw, lineStart, p) && p < q <= t.end
    requires NextEol(t.s, LineAt(t, lineStart), t.end, t.quirks) == Some(q)
    requires sepLen == SepLen(t.quirks) || (sepLen == 2 && LineAt(t, lineStart) < p && t.s[p - 1] == CR && q == p + 1)
    ensures var line := LineOf(raw, Text(t.s, p, q), lineStart);
            && |raw| == |t.seed| + (p - t.start) && q <= t.goal.pos
            && raw + Text(t.s, p, q) == t.seed + Text(t.s, t.start, q)
            && if EndTest(line, sepLen, t.quirks) then t.goal == Scanned(st, q, true)
               else Parsing(t, PushLine(st, line), raw + Text(t.s, p, q), |raw + Text(t.s, p, q)|, q)
  {
    hide PushLine, TrimEnd, Scan, NextEol, UnfinishedBehind, Interpreted, LineOf, EndTest;
    var begin := LineAt(t, lineStart);
    ParsingLine(t, st, raw, lineStart, p, q);
    NextEolAt(t.s, begin, t.end, t.quirks, q);
    EndsBlockTest(t.s, begin, t.end, t.quirks, q, sepLen);
    ScanLine(st, t.s, begin, t.end, t.quirks, q);
    var line := Text(t.s, begin, q);
    if !EndTest(line, sepLen, t.quirks) {
      InterpretedOn(t, st, begin, p, q);
      ParsingNextLine(t, PushLine(st, line), raw + Text(t.s, p, q), q);
    }
  }

  /** A chunk, the text from `c` to `d`, without terminator behind `from` all belongs to the current line. */
  lemma ChunkInLine(t: Task, st: ScanState, raw: bytes, lineStart: nat, c: nat, d: nat, chunk: bytes, from: nat)
    requires t.start <= c <= c + from < d <= t.end <= |t.s| && chunk == Text(t.s, c, d)
    requires Parsing(t, st, raw, lineStart, c + from) && CleanCut(t.s, LineAt(t, lineStart), c + from, t.quirks)
    requires NextEol(chunk, from, d - c, t.quirks).None?
    ensures Parsing(t, st, raw + chunk[from..], lineStart, d)
    ensures |raw| + (d - c) <= |t.seed| + 2 * (t.goal.pos - t.start)
  {
    hide PushLine, TrimEnd, Scan, NextEol, Parsing, LineAt, CleanCut, Text;
    ParsingUnfinished(t, st, raw, lineStart, c + from);
    ChunkEol(t.s, LineAt(t, lineStart), c, d, chunk, from, t.end, t.quirks);
    TextDrop(t.s, c, d, from);
    ParsingLineGrows(t, st, raw, lineStart, c + from, d);
  }

  /** A terminator in the chunk completes the current line. */
  lemma ChunkEndsLine(t: Task, st: ScanState, raw: bytes, lineStart: nat, c: nat, d: nat, chunk: bytes, from: nat, e: nat)
    requires t.start <= c <= c + from < d <= t.end <= |t.s| && chunk == Text(t.s, c, d)
    requires Parsing(t, st, raw, lineStart, c + from) && CleanCut(t.s, LineAt(t, lineStart), c + from, t.quirks)
    requires NextEol(chunk, from, d - c, t.quirks) == Some(e)
    ensures LineIsDone(t, st, raw, lineStart, chunk[from..e], c + e, SepLen(t.quirks))
    ensures |raw| + (e - from) <= |t.seed| + (t.goal.pos - t.start)
  {
    hide PushLine, TrimEnd, Scan, NextEol, Parsing, LineAt, CleanCut, Text, EndTest, LineOf;
    ParsingUnfinished(t, st, raw, lineStart, c + from);
    ChunkEol(t.s, LineAt(t, lineStart), c, d, chunk, from, t.end, t.quirks);
    TextSlice(t.s, c, d, from, e);
    ParsingLineDone(t, st, raw, lineStart, c + from, c + e, SepLen(t.quirks));
  }

  /** With `part` the line ends at `q`: either the block is complete there, or the next line begins. */
  ghost predicate LineIsDone(t: Task, st: ScanState, raw: bytes, lineStart: nat, part: bytes, q: nat, sepLen: nat) {
    && lineStart <= |raw|
    && raw + part == t.seed + Text(t.s, t.start, q)
    && var line := LineOf(raw, part, lineStart);
    && (EndTest(line, sepLen, t.quirks) ==> t.goal == Scanned(st, q, true))
    && (!EndTest(line, sepLen, t.quirks) ==> Parsing(t, PushLine(st, line), raw + part, |raw + part|, q))
  }

  /** Nothing is read yet, and the seed's CR meets a LF. */
  ghost predicate BehindCrSeed(t: Task, st: ScanState, raw: bytes, lineStart: nat, p: nat) {
    && t.start == p < t.end <= |t.s| && t.s[p] == LF
    && raw == t.seed && lineStart == |raw| && raw != [] && raw[|raw| - 1] == CR && st == t.init
    && t.goal == if t.quirks then Scanned(st, p + 1, true) else Scan(PushLine(st, [LF]), t.s, p + 1, t.end, t.quirks)
  }

  /** The seed ends in CR and the input begins with LF. */
  predicate CrSeed(t: Task) {
    t.start < t.end <= |t.s| && t.s[t.start] == LF && t.seed != [] && t.seed[|t.seed| - 1] == CR
  }

  /** The parser's position, also before the first byte. */
  ghost predicate Reading(t: Task, st: ScanState, raw: bytes, lineStart: nat, p: nat) {
    if CrSeed(t) && p == t.start then BehindCrSeed(t, st, raw, lineStart, p) else Parsing(t, st, raw, lineStart, p)
  }

  lemma ReadingStarts(t: Task, st: ScanState)
    requires t.start <= t.end && (t.start < t.end ==> t.end <= |t.s|)
    requires st == t.init && t.goal == ScanBehind(t.seed, st, t.s, t.start, t.end, t.quirks)
    ensures Reading(t, st, t.seed, |t.seed|, t.start)
  {
    hide PushLine;
    assert t.seed + Text(t.s, t.start, t.start) == t.seed;
  }

  lemma ReadingText(t: Task, st: ScanState, raw: bytes, lineStart: nat, p: nat)
    requires Reading(t, st, raw, lineStart, p)
    ensures t.start <= p <= t.end && raw == t.seed + Text(t.s, t.start, p)
  {
    hide PushLine;
    assert t.seed + Text(t.s, t.start, t.start) == t.seed;
  }

  lemma {:induction false} SplitCrlf(s: bytes, line: nat, p: nat, end: nat, quirks: bool)
    requires line < p < end <= |s| && s[p - 1] == CR && s[p] == LF
    requires NextEol(s, line, p, quirks).None?
    ensures NextEol(s, line, end, quirks) == Some(p + 1)
    decreases p - line
  {
    if line + 1 < p {
      SplitCrlf(s, line + 1, p, end, quirks);
    }
  }

  /** Behind a CR the parser is inside a line. */
  lemma BehindCr(t: Task, st: ScanState, raw: bytes, lineStart: nat, p: nat)
    requires Parsing(t, st, raw, lineStart, p) && !(CrSeed(t) && p == t.start)
    requires p < t.end && t.s[p] == LF && raw != [] && raw[|raw| - 1] == CR
    ensures t.start < p <= |t.s| && t.s[p - 1] == CR && LineAt(t, lineStart) < p
  {
    hide Scan, NextEol;
    if t.start < p {
      assert raw[|raw| - 1] == t.s[p - 1];
    }
  }

  /** A CRLF split over two buffers completes the line all the same. */
  lemma SplitCrlfEndsLine(t: Task, st: ScanState, raw: bytes, lineStart: nat, p: nat)
    requires Reading(t, st, raw, lineStart, p) && p < t.end
    requires t.s[p] == LF && raw != [] && raw[|raw| - 1] == CR
    ensures LineIsDone(t, st, raw, lineStart, [LF], p + 1, 2)
  {
    hide PushLine, TrimEnd, Scan, NextEol, EndTest, LineOf, Parsing, LineAt;
    if CrSeed(t) && p == t.start {
      CrSeedEndsLine(t, st, raw, lineStart, p);
    } else {
      BehindCr(t, st, raw, lineStart, p);
      ParsingUnfinished(t, st, raw, lineStart, p);
      SplitCrlf(t.s, LineAt(t, lineStart), p, t.end, t.quirks);
      assert Text(t.s, p, p + 1) == [LF];
      ParsingLineDone(t, st, raw, lineStart, p, p + 1, 2);
    }
  }

  lemma CrSeedEndsLine(t: Task, st: ScanState, raw: bytes, lineStart: nat, p: nat)
    requires BehindCrSeed(t, st, raw, lineStart, p)
    ensures LineIsDone(t, st, raw, lineStart, [LF], p + 1, 2)
  {
    hide PushLine, Scan;
    assert Text(t.s, p, p + 1) == [LF];
    assert LineOf(raw, [LF], lineStart) == [LF];
    TrimEndEmpty([LF]);
    if !t.quirks {
      ParsingNextLine(t, PushLine(st, [LF]), raw + [LF], p + 1);
    }
  }

  /** At the end of the input an unfinished line still counts. */
  lemma ReadingEnds(t: Task, st: ScanState, raw: bytes, lineStart: nat)
    requires Reading(t, st, raw, lineStart, t.end)
    ensures lineStart <= |raw| && raw == t.seed + Text(t.s, t.start, t.end)
    ensures t.goal == Scanned(if |raw| > lineStart then PushLine(st, raw[lineStart..]) else st, t.end, false)
  {
    hide PushLine, TrimEnd;
    assert Text(t.s, t.end, t.end) == [];
    ParsingLine(t, st, raw, lineStart, t.end, t.end);
    assert raw + [] == raw;
    TextBehind(t.seed, t.s, t.start, LineAt(t, lineStart), t.end);
  }

  /** Away from a split CRLF the parser can go on reading lines. */
  lemma ReadingIsClean(t: Task, st: ScanState, raw: bytes, lineStart: nat, p: nat)
    requires Reading(t, st, raw, lineStart, p) && p < t.end <= |t.s|
    requires !(raw != [] && raw[|raw| - 1] == CR && t.s[p] == LF)
    ensures Parsing(t, st, raw, lineStart, p) && CleanCut(t.s, LineAt(t, lineStart), p, t.quirks)
  {
    hide PushLine, TrimEnd, Scan, NextEol;
    ReadingText(t, st, raw, lineStart, p);
    assert t.start < p ==> raw[|raw| - 1] == t.s[p - 1];
  }

  lemma NextLineIsClean(t: Task, st: ScanState, raw: bytes, p: nat)
    requires Parsing(t, st, raw, |raw|, p) && p <= |t.s|
    ensures CleanCut(t.s, LineAt(t, |raw|), p, t.quirks)
  {
    hide PushLine, TrimEnd, Scan, NextEol;
    ParsingLine(t, st, raw, |raw|, p, p);
  }

  lemma ParsingIsReading(t: Task, st: ScanState, raw: bytes, lineStart: nat, p: nat)
    requires Parsing(t, st, raw, lineStart, p) && t.start < p
    ensures Reading(t, st, raw, lineStart, p)
  {
  }

  /** Where in the input the parser stands, by the length of its raw block. */
  ghost function Reached(t: Task, raw: bytes): nat
    requires |t.seed| <= |raw|
  {
    t.start + (|raw| - |t.seed|)
  }

  lemma ParsingReached(t: Task, st: ScanState, raw: bytes, lineStart: nat, p: nat)
    requires Parsing(t, st, raw, lineStart, p)
    ensures |t.seed| <= |raw| && p == Reached(t, raw)
  {
    hide Scan, NextEol, UnfinishedBehind;
  }

  /** Broken off there, the parser has interpreted the complete lines, and is still inside the block. */
  lemma ParsingIsBroken(t: Task, st: ScanState, raw: bytes, lineStart: nat)
    requires |t.seed| <= |raw| && Parsing(t, st, raw, lineStart, Reached(t, raw))
    ensures var stop := Reached(t, raw);
            && t.start <= stop <= t.end && (t.start < stop ==> stop <= |t.s|)
            && raw == t.seed + Text(t.s, t.start, stop)
            && var r := UnfinishedBehind(t.seed, t.init, t.s, t.start, stop, t.quirks);
            && r.0 == st && (r.1 < stop ==> NextEol(t.s, r.1, stop, t.quirks).None?)
  {
    hide Scan, NextEol, UnfinishedBehind;
  }
}

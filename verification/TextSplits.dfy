/**
 Reading the lines of a text file in parallel (resiliparse-py/resiliparse/beam/textio.py):
 the file is cut into byte ranges, and each range yields the lines that start in
 it. Every line is yielded exactly once.
 */
module TextSplits {
  import opened Wrappers
  import opened ByteStrings
  import opened Readers

  // ------------------------------------------------------------------
  // Lines of a range
  // ------------------------------------------------------------------

  function Eol(s: bytes, p: nat): (r: nat)
    ensures p < |s| ==> p < r <= |s|
  {
    if p < |s| then LineEnd(s, p, |s|) else p
  }

  /** Where the first line that belongs to a range from `a` on begins. */
  function FirstLine(s: bytes, a: nat): (r: nat)
    ensures a <= |s| ==> a <= r <= |s|
  {
    if a == 0 then 0 else Eol(s, a - 1)
  }

  /** A line without its last byte. */
  function Chop(line: bytes): (r: bytes) {
    if line == [] then [] else line[..|line| - 1]
  }

  /** The lines from `p` on that start before `stop`. */
  function Lines(s: bytes, p: nat, stop: nat): (r: seq<bytes>)
    decreases |s| - p
  {
    if p >= stop || p >= |s| then []
    else [Chop(Text(s, p, Eol(s, p)))] + Lines(s, Eol(s, p), stop)
  }

  /** The lines a range has to yield. */
  function LinesOf(s: bytes, start: nat, stop: nat): (r: seq<bytes>) {
    Lines(s, FirstLine(s, start), stop)
  }

  lemma {:induction false} EolWithin(s: bytes, p: nat, q: nat)
    requires p <= q < Eol(s, p) <= |s|
    ensures Eol(s, q) == Eol(s, p)
    decreases q - p
  {
    if p < q {
      EolWithin(s, p + 1, q);
    }
  }

  lemma FirstLineBehind(s: bytes, p: nat, b: nat)
    requires p < b <= Eol(s, p) && p < |s|
    ensures FirstLine(s, b) == Eol(s, p)
  {
    hide LineEnd;
    EolWithin(s, p, b - 1);
  }

  /** Reading on up to `c` is reading up to `b`, and then on from the first line behind it. */
  lemma {:induction false} LinesSplit(s: bytes, p: nat, b: nat, c: nat)
    requires b <= c <= |s| && (p < b || p == FirstLine(s, b))
    ensures Lines(s, p, c) == Lines(s, p, b) + LinesOf(s, b, c)
    decreases |s| - p
  {
    hide LineEnd, Chop, Eol, FirstLine, Text;
    if p < b {
      var e := Eol(s, p);
      if e >= b {
        FirstLineBehind(s, p, b);
      }
      LinesSplit(s, e, b, c);
      var line := [Chop(Text(s, p, e))];
      assert Lines(s, p, c) == line + Lines(s, e, c) && Lines(s, p, b) == line + Lines(s, e, b);
    }
  }

  predicate LineStart(s: bytes, p: nat) {
    FirstLine(s, p) == p
  }

  lemma EolIsLineStart(s: bytes, p: nat)
    requires p < |s|
    ensures LineStart(s, Eol(s, p))
  {
    hide LineEnd;
    EolWithin(s, p, Eol(s, p) - 1);
  }

  lemma LinesOneMore(s: bytes, first: nat, p: nat)
    requires first <= p < |s| && LineStart(s, p)
    ensures Lines(s, first, Eol(s, p)) == Lines(s, first, p) + [Chop(Text(s, p, Eol(s, p)))]
  {
    hide LineEnd, Chop;
    LinesSplit(s, first, p, Eol(s, p));
    assert LinesOf(s, p, Eol(s, p)) == Lines(s, p, Eol(s, p));
    assert Lines(s, Eol(s, p), Eol(s, p)) == [];
  }

  lemma FirstLineStarts(s: bytes, a: nat)
    requires a <= |s|
    ensures LineStart(s, FirstLine(s, a)) && Lines(s, FirstLine(s, a), FirstLine(s, a)) == []
  {
    hide LineEnd;
    if a > 0 {
      EolIsLineStart(s, a - 1);
    }
  }

  /** No line starts between `stop` and the end of a line that starts before. */
  lemma LinesUpTo(s: bytes, first: nat, q: nat, stop: nat)
    requires first <= q < stop <= Eol(s, q) && q < |s|
    ensures Lines(s, first, Eol(s, q)) == Lines(s, first, stop)
  {
    hide LineEnd, Chop;
    EolWithin(s, q, stop - 1);
    LinesSplit(s, first, stop, Eol(s, q));
  }

  /** Neighbouring ranges yield together what one range over both yields. */
  lemma RangesJoin(s: bytes, a: nat, b: nat, c: nat)
    requires a <= b <= c <= |s|
    ensures LinesOf(s, a, c) == LinesOf(s, a, b) + LinesOf(s, b, c)
  {
    hide LineEnd, Lines;
    if a > 0 && FirstLine(s, a) >= b > a {
      EolWithin(s, a - 1, b - 1);
    }
    LinesSplit(s, FirstLine(s, a), b, c);
  }

  // ------------------------------------------------------------------
  // Partitions
  // ------------------------------------------------------------------

  datatype Range = Range(start: nat, stop: nat)

  /** The ranges follow each other without gap or overlap from `a` to `b`. */
  predicate Contiguous(rs: seq<Range>, a: nat, b: nat) {
    if rs == [] then a == b
    else rs[0].start == a <= rs[0].stop <= b && Contiguous(rs[1..], rs[0].stop, b)
  }

  function LinesOfAll(s: bytes, rs: seq<Range>): (r: seq<bytes>) {
    if rs == [] then [] else LinesOf(s, rs[0].start, rs[0].stop) + LinesOfAll(s, rs[1..])
  }

  /** However a file is cut into ranges, they yield the lines of the whole file. */
  lemma {:induction false} ExactlyOnce(s: bytes, rs: seq<Range>, a: nat)
    requires Contiguous(rs, a, |s|)
    ensures LinesOfAll(s, rs) == LinesOf(s, a, |s|)
  {
    hide LinesOf;
    if rs == [] {
      EmptyRange(s);
    } else {
      ExactlyOnce(s, rs[1..], rs[0].stop);
      RangesJoin(s, a, rs[0].stop, |s|);
    }
  }

  lemma EmptyRange(s: bytes)
    ensures LinesOf(s, |s|, |s|) == []
  {
  }

  lemma {:induction false} ContiguousAppend(rs: seq<Range>, a: nat, b: nat, c: nat)
    requires Contiguous(rs, a, b) && b <= c
    ensures Contiguous(rs + [Range(b, c)], a, c)
  {
    var all := rs + [Range(b, c)];
    if rs == [] {
      assert all[1..] == [];
    } else {
      assert all[1..] == rs[1..] + [Range(b, c)];
      ContiguousAppend(rs[1..], rs[0].stop, b, c);
    }
  }

  function Max(a: int, b: int): int { if a >= b then a else b }

  function Size(r: Range): int { r.stop - r.start }

  /**
   All ranges but the last are as long as asked for, and what would be too short
   behind the last one belongs to it; only a file that is too small has a range
   that is.
   */
  predicate WellSized(rs: seq<Range>, step: int, minSize: int) {
    forall i :: 0 <= i < |rs| ==>
      && 0 < Size(rs[i]) <= step + Max(0, minSize - 1)
      && (i < |rs| - 1 ==> Size(rs[i]) == step)
      && (|rs| > 1 ==> minSize <= Size(rs[i]))
  }

  /**
   Cuts a file into ranges. A step of zero is an error; a negative one, which
   takes two negative sizes, yields no range at all.
   */
  method GenSplits(size: nat, desiredSize: int, minSize: int) returns (r: Result<seq<Range>, IoError>)
    ensures r.Err? <==> Max(minSize, desiredSize) == 0
    ensures r.Ok? ==> (Contiguous(r.value, 0, size) <==> Max(minSize, desiredSize) > 0 || size == 0)
    ensures r.Ok? && Max(minSize, desiredSize) < 0 ==> r.value == []
    ensures r.Ok? ==> WellSized(r.value, Max(minSize, desiredSize), minSize)
  {
    var step := Max(minSize, desiredSize);
    if step == 0 {
      return Err(InvalidInput);
    }
    if step < 0 {
      return Ok([]);
    }
    var rs: seq<Range> := [];
    var start: nat := 0;
    while start < size
      invariant Contiguous(rs, 0, Min(start, size))
      invariant forall i :: 0 <= i < |rs| ==> 0 < Size(rs[i]) <= step && (start < size ==> Size(rs[i]) == step)
      invariant forall i :: 0 <= i < |rs| - 1 ==> Size(rs[i]) == step
      invariant rs != [] ==> if start < size then size - start >= minSize else minSize <= 0
    {
      var end := if start + step < size then start + step else size;
      if size - end < minSize {
        ContiguousAppend(rs, 0, start, size);
        rs := rs + [Range(start, size)];
        return Ok(rs);
      }
      ContiguousAppend(rs, 0, start, end);
      rs := rs + [Range(start, end)];
      start := start + step;
    }
    return Ok(rs);
  }

  // ------------------------------------------------------------------
  // Lines and the file
  // ------------------------------------------------------------------

  /** The text made of terminated lines. */
  function Unlines(lines: seq<bytes>): (r: bytes) {
    if lines == [] then [] else lines[0] + [LF] + Unlines(lines[1..])
  }

  /** The last line of a file without a final line feed is cut short by its last byte. */
  function Terminated(s: bytes): (r: bytes) {
    if s == [] then [] else s[..|s| - 1] + [LF]
  }

  lemma {:induction false} LastByteOfLine(s: bytes, p: nat)
    requires p < |s|
    ensures Eol(s, p) < |s| ==> s[Eol(s, p) - 1] == LF
    ensures forall i :: p <= i < Eol(s, p) - 1 ==> s[i] != LF
    decreases |s| - p
  {
    if s[p] != LF && p + 1 < |s| {
      LastByteOfLine(s, p + 1);
    }
  }

  lemma ChoppedLine(s: bytes, p: nat)
    requires p < |s|
    ensures var e, line := Eol(s, p), Chop(Text(s, p, Eol(s, p)));
            line == s[p..e - 1] && LF !in line && line + [LF] == Terminated(s)[p..e]
  {
    hide LineEnd;
    LastByteOfLine(s, p);
    var line := Chop(Text(s, p, Eol(s, p)));
    assert forall i :: 0 <= i < |line| ==> line[i] == s[p + i];
  }

  lemma {:induction false} LinesHaveNoLf(s: bytes, p: nat, stop: nat)
    ensures forall i :: 0 <= i < |Lines(s, p, stop)| ==> LF !in Lines(s, p, stop)[i]
    decreases |s| - p
  {
    hide LineEnd, Chop, Text;
    if p < stop && p < |s| {
      ChoppedLine(s, p);
      LinesHaveNoLf(s, Eol(s, p), stop);
    }
  }

  /** The lines, terminated again, are the text from `p` on with its last byte made a line feed. */
  lemma {:induction false} UnlinesOfLines(s: bytes, p: nat)
    requires p < |s|
    ensures Unlines(Lines(s, p, |s|)) == Terminated(s)[p..]
    decreases |s| - p
  {
    hide LineEnd, Chop, Text, Eol;
    var e, t := Eol(s, p), Terminated(s);
    var line := Chop(Text(s, p, e));
    ChoppedLine(s, p);
    assert Unlines(Lines(s, p, |s|)) == line + [LF] + Unlines(Lines(s, e, |s|));
    if e < |s| {
      UnlinesOfLines(s, e);
      assert t[p..e] + t[e..] == t[p..];
    } else {
      assert Lines(s, e, |s|) == [];
      assert t[p..e] + [] == t[p..];
    }
  }

  /** Nothing is lost between the lines of a file and the file exactly when it ends with a line feed. */
  lemma LinesKeepFile(s: bytes)
    ensures Unlines(LinesOf(s, 0, |s|)) == Terminated(s)
    ensures Unlines(LinesOf(s, 0, |s|)) == s <==> (s != [] ==> s[|s| - 1] == LF)
  {
    hide LineEnd, Unlines, Lines;
    if s == [] {
      NoLines();
    } else {
      UnlinesOfLines(s, 0);
      assert Terminated(s)[0..] == Terminated(s);
      assert Terminated(s)[|s| - 1] == LF;
      assert s == s[..|s| - 1] + [s[|s| - 1]];
    }
  }

  lemma NoLines()
    ensures Unlines(Lines([], 0, 0)) == []
  {
  }

  // ------------------------------------------------------------------
  // Reading one range
  // ------------------------------------------------------------------

  class TextFile {
    const data: bytes
    var pos: nat

    constructor (data: bytes)
      ensures this.data == data && pos == 0
    {
      this.data := data;
      pos := 0;
    }

    method Seek(pos: nat)
      modifies this
      ensures this.pos == pos
    {
      this.pos := pos;
    }

    method ReadLine() returns (line: bytes)
      modifies this
      ensures pos == Eol(data, old(pos)) && line == Text(data, old(pos), pos)
    {
      var e := Eol(data, pos);
      line := Text(data, pos, e);
      pos := e;
    }
  }

  /**
   The range a worker reads. The runner may cut off its end while it is being
   read, anywhere behind the position that was last asked about.
   */
  class OffsetTracker {
    const start: nat
    var stop: nat
    var lastAttempt: Option<nat>

    constructor (range: Range)
      ensures start == range.start && stop == range.stop && lastAttempt == None
    {
      start, stop, lastAttempt := range.start, range.stop, None;
    }

    method MaybeSplit()
      modifies this`stop
      ensures stop <= old(stop)
      ensures stop < old(stop) ==> start < stop && (lastAttempt.Some? ==> lastAttempt.value < stop)
    {
      if * {
        var cut: nat := *;
        if start < cut < stop && (lastAttempt.Some? ==> lastAttempt.value < cut) {
          stop := cut;
        }
      }
    }

    /** Positions have to be claimed in increasing order and inside the range. */
    method TryClaim(pos: nat) returns (claimed: bool, inOrder: bool)
      modifies this`lastAttempt
      ensures inOrder <==> start <= pos && (old(lastAttempt).Some? ==> old(lastAttempt).value < pos)
      ensures inOrder ==> lastAttempt == Some(pos)
      ensures claimed <==> inOrder && pos < stop
    {
      if lastAttempt.Some? && pos <= lastAttempt.value {
        return false, false;
      }
      lastAttempt := Some(pos);
      return start <= pos < stop, start <= pos;
    }
  }

  /**
   Yields the lines of a range: of what is left of it in the end. Neither the
   tracker nor an unexpected end of the file gets in the way.
   */
  method ReadSplit(file: TextFile, tracker: OffsetTracker) returns (lines: seq<bytes>, r: Result<(), IoError>)
    requires tracker.start <= tracker.stop <= |file.data| && tracker.lastAttempt == None && file.pos == 0
    modifies file, tracker
    ensures r.Ok? && tracker.start <= tracker.stop <= old(tracker.stop)
    ensures tracker.stop < old(tracker.stop) ==> tracker.start < tracker.stop
    ensures lines == LinesOf(file.data, tracker.start, tracker.stop)
  {
    hide Chop, LineEnd;
    var pos := tracker.start;
    ghost var s, first := file.data, FirstLine(file.data, tracker.start);
    if pos > 0 {
      file.Seek(pos - 1);
      var discarded := file.ReadLine();
    }
    FirstLineStarts(s, tracker.start);
    lines, r := [], Ok(());
    while true
      invariant tracker.stop < old(tracker.stop) ==> tracker.start < tracker.stop
      invariant r.Ok? && tracker.start <= tracker.stop <= old(tracker.stop) && first <= file.pos <= |s|
      invariant LineStart(s, file.pos) && lines == Lines(s, first, file.pos)
      invariant match tracker.lastAttempt
                case None => file.pos == first
                case Some(q) => first <= q < tracker.stop && file.pos == Eol(s, q) && q < |s|
      decreases |s| - file.pos
    {
      tracker.MaybeSplit();
      ghost var last := tracker.lastAttempt;
      var claimed, inOrder := tracker.TryClaim(file.pos);
      if !inOrder {
        r := Err(InvalidInput);
        break;
      } else if !claimed {
        if last.Some? {
          LinesUpTo(s, first, last.value, tracker.stop);
        }
        break;
      }
      LinesOneMore(s, first, file.pos);
      EolIsLineStart(s, file.pos);
      var line := file.ReadLine();
      if |line| == 0 {
        r := Err(UnexpectedEof);
        break;
      }
      lines := lines + [Chop(line)];
    }
  }

  /**
   Reads a file by ranges; the ranges may be read in any order, each by a worker
   of its own. Exactly with a positive range size the lines of the file are read.
   */
  method ReadByRanges(data: bytes, desiredSize: int, minSize: int) returns (lines: seq<bytes>, r: Result<(), IoError>)
    ensures r.Err? <==> Max(minSize, desiredSize) == 0
    ensures r.Ok? ==> (lines == LinesOf(data, 0, |data|) <==> Max(minSize, desiredSize) > 0 || data == [])
  {
    hide LinesOf, Contiguous, WellSized;
    var split := GenSplits(|data|, desiredSize, minSize);
    if split.Err? {
      return [], Err(split.error);
    }
    var rs := split.value;
    SomeLines(data);
    if Contiguous(rs, 0, |data|) {
      ExactlyOnce(data, rs, 0);
    }
    lines, r := [], Ok(());
    for i := 0 to |rs|
      invariant r.Ok? && (rs != [] ==> Contiguous(rs[i..], if i == 0 then 0 else rs[i - 1].stop, |data|))
      invariant lines + LinesOfAll(data, rs[i..]) == LinesOfAll(data, rs)
    {
      FirstInside(rs[i..], if i == 0 then 0 else rs[i - 1].stop, |data|);
      assert rs[i..][1..] == rs[i + 1..];
      var part, done := ReadWithHelp(data, rs[i]);
      lines := lines + part;
    }
  }

  lemma SomeLines(s: bytes)
    ensures LinesOf(s, 0, |s|) == [] <==> s == []
  {
    hide LineEnd, Chop;
  }

  lemma FirstInside(rs: seq<Range>, a: nat, b: nat)
    requires Contiguous(rs, a, b) && rs != []
    ensures rs[0].start == a <= rs[0].stop <= b && Contiguous(rs[1..], rs[0].stop, b)
  {
  }

  /** Reads a range; whatever the runner cuts off of it is read the same way. */
  method ReadWithHelp(data: bytes, range: Range) returns (lines: seq<bytes>, r: Result<(), IoError>)
    requires range.start <= range.stop <= |data|
    ensures r.Ok? && lines == LinesOf(data, range.start, range.stop)
    decreases range.stop - range.start
  {
    hide LinesOf;
    var file := new TextFile(data);
    var tracker := new OffsetTracker(range);
    lines, r := ReadSplit(file, tracker);
    if tracker.stop < range.stop {
      var more;
      RangesJoin(data, range.start, tracker.stop, range.stop);
      more, r := ReadWithHelp(data, Range(tracker.stop, range.stop));
      lines := lines + more;
    }
  }
}

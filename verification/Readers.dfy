/**
 The reader stack under the WARC parser (fastwarc-rs/src/stream_io/bufread.rs):
 a buffered reader that caches its position, and a movable limit laid over it.

 How many bytes a refill delivers is left open, so every result proved here
 holds for every way of dividing the stream into buffers.
 */
module Readers {
  import opened Wrappers
  import opened ByteStrings

  datatype SeekFrom = Start(offset: nat) | End(delta: int) | Current(delta: int)

  /** Where a seek lands on a plain byte array of length `len`, read at `pos`. */
  function SeekTarget(from: SeekFrom, pos: nat, len: nat): int {
    match from
    case Start(offset) => offset
    case End(delta) => len + delta
    case Current(delta) => pos + delta
  }

  function SeekResult(target: int): (r: Result<nat, IoError>) {
    if 0 <= target <= I64_MAX then Ok(target) else Err(InvalidInput)
  }

  /** The end of the line at `p`: behind its first LF, or `cap` when there is none before. */
  function LineEnd(data: bytes, p: nat, cap: nat): (r: nat)
    requires p <= cap && (p < cap ==> cap <= |data|)
    ensures p <= r <= cap
    decreases cap - p
  {
    if p == cap then p
    else if data[p] == LF then p + 1
    else LineEnd(data, p + 1, cap)
  }

  lemma {:induction false} LineEndSkip(data: bytes, p: nat, q: nat, cap: nat)
    requires p <= q <= cap && (p < cap ==> cap <= |data|)
    requires forall j :: p <= j < q ==> data[j] != LF
    ensures LineEnd(data, p, cap) == LineEnd(data, q, cap)
    decreases q - p
  {
    if p < q {
      LineEndSkip(data, p + 1, q, cap);
    }
  }

  /** How much of a buffer belongs to the line, and whether the line ends with it. */
  function LinePart(chunk: bytes, max: nat): (r: (nat, bool))
    ensures r.0 <= |chunk| && r.0 <= max
    ensures chunk != [] && max > 0 ==> r.0 > 0
  {
    var n := Min(|chunk|, max);
    match IndexOf(chunk[..n], LF)
    case Some(i) => (i + 1, true)
    case None => (n, false)
  }

  /** The line ends at the LF a buffer shows, or goes on behind the buffer. */
  lemma LineEndInBuffer(data: bytes, p: nat, chunk: bytes, max: nat, cap: nat)
    requires 0 < |chunk| && 0 < max && p + |chunk| <= |data| && chunk == Text(data, p, p + |chunk|)
    requires p + Min(|chunk|, max) <= cap <= |data|
    ensures var (n, found) := LinePart(chunk, max);
            && chunk[..n] == Text(data, p, p + n)
            && LineEnd(data, p, cap) == if found then p + n else LineEnd(data, p + n, cap)
  {
    hide LineEnd, IndexOf, Text;
    var n := Min(|chunk|, max);
    assert chunk[..n] == chunk[0..n];
    TextSlice(data, p, p + |chunk|, 0, n);
    LineEndAtFirst(data, p, p + n, cap);
    TextSlice(data, p, p + |chunk|, 0, LinePart(chunk, max).0);
  }

  lemma LineEndAtFirst(data: bytes, p: nat, q: nat, cap: nat)
    requires p < q <= cap <= |data|
    ensures match IndexOf(Text(data, p, q), LF)
            case Some(i) => LineEnd(data, p, cap) == p + i + 1
            case None => LineEnd(data, p, cap) == LineEnd(data, q, cap)
  {
    var part := Text(data, p, q);
    var eol := IndexOf(part, LF);
    IndexOfFirst(part, LF);
    assert forall j :: p <= j < q ==> data[j] == part[j - p];
    LineEndSkip(data, p, if eol.Some? then p + eol.value else q, cap);
  }

  // ------------------------------------------------------------------
  // Position-caching buffered reader
  // ------------------------------------------------------------------

  /**
   A seekable byte source behind a buffer. `innerPos` is the logical position of
   the wrapped reader, `avail` the number of bytes its buffer still holds, and
   `pos` the cached copy of the position.
   */
  class TrackedReader {
    const data: bytes
    var innerPos: nat
    var avail: nat
    var pos: nat

    ghost predicate Valid()
      reads this
    {
      && |data| <= I64_MAX
      && pos == innerPos <= I64_MAX
      && (avail > 0 ==> innerPos + avail <= |data|)
    }

    constructor (data: bytes)
      requires |data| <= I64_MAX
      ensures Valid() && this.data == data && pos == 0
    {
      this.data := data;
      innerPos, avail, pos := 0, 0, 0;
    }

    /** The buffer, refilled when empty. It is empty only at the end of the data. */
    method FillBuf() returns (w: bytes)
      requires Valid()
      modifies this`avail
      ensures Valid() && |w| == avail && w == Text(data, pos, pos + |w|)
      ensures |w| == 0 <==> pos >= |data|
    {
      if avail == 0 && innerPos < |data| {
        var n: nat :| 0 < n <= |data| - innerPos;
        avail := n;
      }
      w := if avail == 0 then [] else data[innerPos..innerPos + avail];
    }

    method Consume(amount: nat)
      requires Valid() && amount <= avail
      modifies this
      ensures Valid() && pos == old(pos) + amount && avail == old(avail) - amount
    {
      innerPos, avail := innerPos + amount, avail - amount;
      pos := pos + amount;
    }

    method Read(len: nat) returns (out: bytes)
      requires Valid()
      modifies this
      ensures Valid() && pos == old(pos) + |out|
      ensures out == Text(data, old(pos), pos) && |out| <= len
      ensures |out| == 0 <==> len == 0 || old(pos) >= |data|
    {
      var w := FillBuf();
      var n := Min(|w|, len);
      TextSlice(data, pos, pos + |w|, 0, n);
      out := w[..n];
      Consume(n);
    }

    /** The seek of the wrapped reader: it drops the buffer. */
    method InnerSeek(from: SeekFrom) returns (r: Result<nat, IoError>)
      requires Valid()
      modifies this`innerPos, this`avail
      ensures r == SeekResult(SeekTarget(from, old(innerPos), |data|))
      ensures r.Ok? ==> innerPos == r.value && avail == 0
      ensures r.Err? ==> innerPos == old(innerPos) && avail == old(avail)
    {
      var target := SeekTarget(from, innerPos, |data|);
      if target < 0 || target > I64_MAX {
        return Err(InvalidInput);
      }
      innerPos, avail := target, 0;
      return Ok(target);
    }

    /** Whether the position was cached, reached inside the buffer or really sought makes no difference. */
    method Seek(from: SeekFrom) returns (r: Result<nat, IoError>)
      requires Valid()
      modifies this
      ensures Valid()
      ensures r == SeekResult(SeekTarget(from, old(pos), |data|))
      ensures pos == if r.Ok? then r.value else old(pos)
    {
      if from.Current? {
        if from.delta == 0 {
          return Ok(pos);
        } else if from.delta > 0 {
          var w := FillBuf();
          if from.delta <= |w| {
            Consume(from.delta);
            return Ok(pos);
          }
        }
      } else if from == Start(pos) {
        return Ok(pos);
      }
      r := InnerSeek(from);
      if r.Ok? {
        pos := r.value;
      }
    }
  }

  // ------------------------------------------------------------------
  // Limited reader
  // ------------------------------------------------------------------

  /**
   A window over a shared reader: `pos` counts from the start of the window and
   reading stops `limit - pos` bytes ahead.
   */
  class LimitedReader {
    const inner: TrackedReader
    var limit: nat
    var pos: nat

    ghost predicate Valid()
      reads this, inner
    {
      && inner.Valid()
      && pos <= limit <= U64_MAX
      && pos <= inner.pos
    }

    /** Where the window ends on the inner stream. */
    ghost function Anchor(): int
      reads this, inner
    {
      inner.pos + (limit - pos)
    }

    /** The position reads cannot pass: the end of the window or of the data. */
    ghost function End(): nat
      requires Valid()
      reads this, inner
    {
      if inner.pos >= |inner.data| then inner.pos else Min(|inner.data|, Anchor())
    }

    /** Both positions moved by `n` and the limit stayed. */
    twostate predicate Advanced(n: int)
      reads this, inner
    {
      limit == old(limit) && pos == old(pos) + n && inner.pos == old(inner.pos) + n
    }

    constructor (reader: TrackedReader, limit: Option<nat>)
      requires reader.Valid()
      requires limit.Some? ==> reader.pos <= limit.value <= U64_MAX
      ensures inner == reader && this.pos == reader.pos && Valid()
      ensures this.limit == if limit.Some? then limit.value else U64_MAX
    {
      inner := reader;
      this.limit := if limit.Some? then limit.value else U64_MAX;
      pos := reader.pos;
    }

    method SetLimit(limit: nat)
      requires Valid() && limit <= U64_MAX
      modifies this
      ensures Valid() && this.limit == limit && pos == 0
    {
      this.limit := limit;
      pos := 0;
    }

    method ResetLimit()
      requires Valid()
      modifies this
      ensures Valid() && limit == U64_MAX && pos == inner.pos
    {
      limit := U64_MAX;
      pos := inner.pos;
    }

    method FillBuf() returns (w: bytes)
      requires Valid()
      modifies inner`avail
      ensures Valid() && |w| <= inner.avail
      ensures w == Text(inner.data, inner.pos, inner.pos + |w|) && inner.pos + |w| <= End()
      ensures |w| == 0 <==> inner.pos == End()
    {
      var buf := inner.FillBuf();
      var n := Min(|buf|, limit - pos);
      TextSlice(inner.data, inner.pos, inner.pos + |buf|, 0, n);
      w := buf[..n];
    }

    method Consume(amount: nat)
      requires Valid() && Min(amount, limit - pos) <= inner.avail
      modifies this, inner
      ensures Valid() && Advanced(Min(amount, old(limit - pos))) && End() == old(End())
    {
      var n := Min(amount, limit - pos);
      inner.Consume(n);
      pos := pos + n;
    }

    method Read(len: nat) returns (out: bytes)
      requires Valid()
      modifies this, inner
      ensures Valid() && Advanced(|out|) && End() == old(End())
      ensures out == Text(inner.data, old(inner.pos), inner.pos) && |out| <= len
      ensures |out| == 0 <==> len == 0 || old(inner.pos) == End()
    {
      out := inner.Read(Min(len, limit - pos));
      pos := pos + |out|;
    }

    /** Seeking is clamped to the window, and both positions move by the same amount. */
    method Seek(from: SeekFrom) returns (r: Result<nat, IoError>)
      requires Valid()
      modifies this, inner
      ensures Valid()
      ensures r.Err? ==> Advanced(0) && r.error == InvalidInput
      ensures r.Ok? ==> Advanced(r.value - old(pos))
      ensures r.Ok? ==> r.value == pos == ClampedTarget(from, old(pos), limit)
      ensures r.Ok? <==> from == Current(0) ||
                         (0 <= SeekTarget(from, old(pos), limit) <= I64_MAX
                          && old(inner.pos - pos) + ClampedTarget(from, old(pos), limit) <= I64_MAX)
    {
      if from == Current(0) {
        return Ok(pos);
      }
      var newPos := SeekTarget(from, pos, limit);
      if newPos < 0 || newPos > I64_MAX {
        return Err(InvalidInput);
      } else if newPos > limit {
        newPos := limit;
      }
      r := inner.Seek(Current(newPos - pos));
      if r.Ok? {
        pos := newPos;
        r := Ok(pos);
      }
    }

    /** Reads everything up to the virtual end of file, in reads of any size. */
    method ReadToEnd() returns (out: bytes)
      requires Valid()
      modifies this, inner
      ensures Valid() && Advanced(|out|) && End() == old(End())
      ensures inner.pos == End() && out == Text(inner.data, old(inner.pos), End())
    {
      ghost var p := inner.pos;
      out := [];
      while true
        invariant Valid() && Advanced(|out|) && End() == old(End())
        invariant p <= inner.pos <= End() && out == Text(inner.data, p, inner.pos)
        decreases End() - inner.pos
      {
        var size: nat :| size > 0;
        var part := Read(size);
        if |part| == 0 {
          break;
        }
        TextExtend(inner.data, p, p + |out|, inner.pos);
        out := out + part;
      }
    }

    /** Skips up to `n` bytes. */
    method Skip(n: nat) returns (consumed: nat)
      requires Valid()
      modifies this, inner
      ensures Valid() && Advanced(consumed) && End() == old(End())
      ensures consumed == Min(n, old(End() - inner.pos))
    {
      consumed := 0;
      while consumed < n
        invariant Valid() && Advanced(consumed) && End() == old(End())
        invariant consumed <= Min(n, old(End() - inner.pos))
      {
        var buf := FillBuf();
        if |buf| == 0 {
          break;
        }
        var m := Min(|buf|, n - consumed);
        consumed := consumed + m;
        Consume(m);
      }
    }

    /** The part of the line that the current buffer holds, at most `max` bytes of it. */
    method ReadLinePart(max: nat, ghost cap: nat) returns (part: bytes, found: bool)
      requires Valid() && 0 < max && cap == Min(inner.pos + max, End())
      modifies this, inner
      ensures Valid() && Advanced(|part|) && End() == old(End())
      ensures part == Text(inner.data, old(inner.pos), inner.pos) && inner.pos <= cap
      ensures |part| == 0 <==> old(inner.pos) == cap
      ensures LineEnd(inner.data, old(inner.pos), cap) == if found then inner.pos else LineEnd(inner.data, inner.pos, cap)
    {
      var chunk := FillBuf();
      if |chunk| == 0 {
        return [], false;
      }
      var (n, ended) := LinePart(chunk, max);
      LineEndInBuffer(inner.data, inner.pos, chunk, max, cap);
      part, found := chunk[..n], ended;
      Consume(n);
    }

    /** Reads one line of at most `maxLineLen` bytes, however the stream is buffered. */
    method ReadLine(maxLineLen: nat) returns (line: bytes)
      requires Valid()
      modifies this, inner
      ensures Valid() && Advanced(|line|) && End() == old(End())
      ensures line == Text(inner.data, old(inner.pos), inner.pos)
      ensures inner.pos == LineEnd(inner.data, old(inner.pos), Min(old(inner.pos) + maxLineLen, End()))
    {
      ghost var p, cap := inner.pos, Min(inner.pos + maxLineLen, End());
      var max := Min(maxLineLen, limit);
      line := [];
      while |line| < max
        invariant Valid() && Advanced(|line|) && End() == old(End())
        invariant inner.pos <= cap && line == Text(inner.data, p, inner.pos)
        invariant LineEnd(inner.data, p, cap) == LineEnd(inner.data, inner.pos, cap)
      {
        var part, found := ReadLinePart(max - |line|, cap);
        TextExtend(inner.data, p, p + |line|, inner.pos);
        line := line + part;
        if found || |part| == 0 {
          break;
        }
      }
    }
  }

  /** The window position a successful seek ends at. */
  function ClampedTarget(from: SeekFrom, pos: nat, limit: nat): int {
    var target := SeekTarget(from, pos, limit);
    if target > limit then limit else target
  }
}

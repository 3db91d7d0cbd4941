/**
 The chunked reader and writer (fastwarc-rs/src/stream_io/chunked.rs), proved
 against `ChunkedFormat` for every way the inner stream is buffered.
 */
module ChunkedStreams {
  import opened Wrappers
  import opened ByteStrings
  import opened Readers
  import opened HeaderText
  import opened Numerals
  import opened ChunkedFormat

  // ------------------------------------------------------------------
  // Reading
  // ------------------------------------------------------------------

  /** Reads up to and with the next LF, or to the end of the data. */
  method ReadLine(inner: TrackedReader) returns (line: bytes)
    requires inner.Valid()
    modifies inner
    ensures inner.Valid() && line == Text(inner.data, old(inner.pos), inner.pos)
    ensures if old(inner.pos) >= |inner.data| then inner.pos == old(inner.pos)
            else inner.pos == LineEnd(inner.data, old(inner.pos), |inner.data|)
  {
    hide LineEnd, Text;
    ghost var s, p := inner.data, inner.pos;
    line := [];
    TextNone(s, p);
    while true
      invariant inner.Valid() && p <= inner.pos && line == Text(s, p, inner.pos)
      invariant p < |s| ==> inner.pos <= |s| && LineEnd(s, p, |s|) == LineEnd(s, inner.pos, |s|)
      invariant p >= |s| ==> inner.pos == p
      decreases |s| - inner.pos
    {
      var w := inner.FillBuf();
      if |w| == 0 {
        LineEndsWithData(s, inner.pos);
        return;
      }
      var (n, found) := LinePart(w, |w|);
      LineEndInBuffer(s, inner.pos, w, |w|, |s|);
      TextExtend(s, p, inner.pos, inner.pos + n);
      line := line + w[..n];
      inner.Consume(n);
      if found {
        return;
      }
    }
  }

  lemma TextNone(s: bytes, p: nat)
    ensures Text(s, p, p) == []
  {
  }

  lemma LineEndsWithData(s: bytes, p: nat)
    ensures p == |s| ==> LineEnd(s, p, |s|) == p
  {
  }

  /** Reads exactly two bytes; at the end of the data what there is is gone. */
  method ReadTwo(inner: TrackedReader) returns (ok: bool)
    requires inner.Valid()
    modifies inner
    ensures inner.Valid() && (ok <==> old(inner.pos) + 2 <= |inner.data|)
    ensures if ok then inner.pos == old(inner.pos) + 2 else inner.pos >= |inner.data|
  {
    hide Text;
    var missing := 2;
    while missing > 0
      invariant inner.Valid() && 0 <= missing <= 2 && inner.pos == old(inner.pos) + 2 - missing
      invariant missing < 2 ==> inner.pos <= |inner.data|
    {
      var part := inner.Read(missing);
      if |part| == 0 {
        return false;
      }
      TextFitsBehind(inner.data, inner.pos - |part|, inner.pos);
      missing := missing - |part|;
    }
    return true;
  }

  lemma TextFitsBehind(s: bytes, a: nat, b: nat)
    ensures Text(s, a, b) != [] ==> b <= |s|
  {
  }

  class ChunkedReader {
    const inner: TrackedReader
    var outBuf: bytes
    var outBufPos: nat
    var streamPos: nat
    var chunkSize: nat
    var chunkRead: nat

    /** A chunk that was read up is left behind, unless the data ended too early behind it. */
    ghost predicate Valid()
      reads this, inner
    {
      && inner.Valid()
      && outBufPos <= |outBuf| && chunkRead <= chunkSize
      && (chunkRead == chunkSize ==> chunkSize == 0 || inner.pos >= |inner.data|)
    }

    /** What the inner stream has still to deliver. */
    ghost function Ahead(): Decoded
      reads this, inner
    {
      if chunkRead < chunkSize then DecodeChunk(inner.data, inner.pos, chunkSize - chunkRead)
      else Decode(inner.data, inner.pos)
    }

    /** What a caller has still to see. */
    ghost function Pending(): Decoded
      requires Valid()
      reads this, inner
    {
      Prepend(outBuf[outBufPos..], Ahead())
    }

    /** The reader is a view of `whole` at its stream position. */
    ghost predicate Views(whole: Decoded)
      requires Valid()
      reads this, inner
    {
      streamPos <= |whole.data| && Pending() == Decoded(whole.data[streamPos..], whole.stop)
    }

    constructor (inner: TrackedReader)
      requires inner.Valid()
      ensures Valid() && this.inner == inner && streamPos == 0 && outBuf == []
      ensures Views(Decode(inner.data, inner.pos))
    {
      this.inner := inner;
      outBuf, outBufPos, streamPos, chunkSize, chunkRead := [], 0, 0, 0, 0;
      new;
      PrependNothing(Decode(inner.data, inner.pos));
    }

    method ConsumeChunkEnd() returns (r: Result<(), IoError>)
      requires inner.Valid()
      modifies inner, this`chunkRead, this`chunkSize
      ensures inner.Valid() && (r.Ok? <==> old(inner.pos) + 2 <= |inner.data|)
      ensures r.Ok? ==> chunkRead == chunkSize == 0 && inner.pos == old(inner.pos) + 2
      ensures r.Err? ==>
                && r.error == UnexpectedEof && inner.pos >= |inner.data|
                && chunkRead == old(chunkRead) && chunkSize == old(chunkSize)
    {
      var ok := ReadTwo(inner);
      if !ok {
        return Err(UnexpectedEof);
      }
      chunkRead := 0;
      chunkSize := 0;
      return Ok(());
    }

    /** Reads the header of the next chunk. Nothing is opened at the end of a stream. */
    method NextChunk() returns (r: Result<bool, IoError>)
      requires Valid() && chunkRead == chunkSize
      modifies inner, this`chunkRead, this`chunkSize
      ensures Valid()
      ensures var d := old(Ahead());
              match r
              case Ok(true) => chunkRead < chunkSize && d == Ahead()
              case Ok(false) => chunkRead == chunkSize && d == Decoded([], Ended(inner.pos))
              case Err(e) => d == Decoded([], Failed(e))
    {
      hide LineEnd, Text, Trim, ParseUnsigned, DecodeChunk;
      var header := ReadLine(inner);
      if old(inner.pos) < |inner.data| {
        LineAdvances(inner.data, old(inner.pos));
      }
      if |header| == 0 {
        return Ok(false);
      }
      var size := ParseUnsigned(Trim(header), Hex);
      if size.None? {
        return Err(InvalidData);
      }
      chunkSize := size.value;
      if chunkSize == 0 {
        var end := ConsumeChunkEnd();
        return if end.Ok? then Ok(false) else Err(end.error);
      }
      return Ok(true);
    }

    /** Copies what the inner buffer holds of the current chunk. */
    method CopyPart() returns (r: Result<(), IoError>)
      requires Valid() && chunkRead < chunkSize && outBufPos == |outBuf|
      modifies inner, this`chunkRead, this`chunkSize, this`outBuf, this`outBufPos
      ensures Valid()
      ensures r.Ok? ==> outBuf != [] && outBufPos == 0 && old(Ahead()) == Prepend(outBuf, Ahead())
      ensures r.Err? ==> old(Ahead()).stop == Failed(r.error)
    {
      hide LineEnd, Text, Decode;
      ghost var s, p, left := inner.data, inner.pos, chunkSize - chunkRead;
      var inBuf := inner.FillBuf();
      var n := Min(|inBuf|, chunkSize - chunkRead);
      if n == 0 {
        return Err(UnexpectedEof);
      }
      outBuf := inBuf[..n];
      outBufPos := 0;
      assert outBuf == inBuf[0..n];
      TextSlice(s, p, p + |inBuf|, 0, n);
      chunkRead := chunkRead + n;
      inner.Consume(n);
      if n < left {
        DecodeChunkSplits(s, p, n, left);
      }
      if chunkRead == chunkSize {
        r := ConsumeChunkEnd();
        return;
      }
      return Ok(());
    }

    /**
     The unread part of the buffer, refilled when empty; it is empty only at the
     end of a chunked stream. The source wraps this in a loop that never comes
     round: a header either ends the stream or opens a chunk.
     */
    method FillBuf() returns (r: Result<bytes, IoError>)
      requires Valid()
      modifies inner, this`chunkRead, this`chunkSize, this`outBuf, this`outBufPos
      ensures Valid()
      ensures r.Ok? && r.value != [] ==> r.value == outBuf[outBufPos..] && Pending() == old(Pending())
      ensures r.Ok? && r.value == [] ==> old(Pending()) == Decoded([], Ended(inner.pos))
      ensures r.Err? ==> old(Pending()).stop == Failed(r.error)
    {
      hide Decode, DecodeChunk, Text;
      if |outBuf[outBufPos..]| > 0 {
        return Ok(outBuf[outBufPos..]);
      }
      PrependNothing(Ahead());
      if chunkRead == chunkSize {
        var chunk := NextChunk();
        if chunk.Err? {
          return Err(chunk.error);
        } else if !chunk.value {
          return Ok([]);
        }
      }
      var part := CopyPart();
      if part.Err? {
        return Err(part.error);
      }
      return Ok(outBuf);
    }

    method Consume(amount: nat)
      requires Valid() && amount <= |outBuf| - outBufPos
      modifies this`streamPos, this`outBufPos
      ensures Valid() && streamPos == old(streamPos) + amount
      ensures forall whole :: old(Views(whole)) ==> Views(whole)
    {
      hide Decode, DecodeChunk;
      streamPos := streamPos + amount;
      outBufPos := outBufPos + amount;
    }

    /** Reads up to `len` bytes of the payload. */
    method Read(len: nat, ghost whole: Decoded) returns (r: Result<bytes, IoError>)
      requires Valid() && Views(whole)
      modifies inner, this
      ensures Valid()
      ensures r.Ok? && r.value != [] ==> Views(whole)
      ensures r.Ok? ==> streamPos == old(streamPos) + |r.value| && |r.value| <= len
      ensures r.Ok? ==> streamPos <= |whole.data| && r.value == whole.data[old(streamPos)..streamPos]
      ensures r.Ok? && r.value == [] && len > 0 ==> streamPos == |whole.data| && whole.stop == Ended(inner.pos)
      ensures r.Err? ==> whole.stop == Failed(r.error) && streamPos == old(streamPos)
    {
      hide Decode, DecodeChunk;
      var w := FillBuf();
      if w.Err? {
        return Err(w.error);
      }
      var n := Min(|w.value|, len);
      if |w.value| > 0 {
        assert w.value <= whole.data[streamPos..];
        Consume(n);
        assert w.value[..n] == whole.data[old(streamPos)..streamPos];
      }
      return Ok(w.value[..n]);
    }

    /** Reads to the first end of a chunked stream, in reads of any size. */
    method ReadToEnd(ghost whole: Decoded) returns (out: bytes, r: Result<(), IoError>)
      requires Valid() && Views(whole)
      modifies inner, this
      ensures Valid() && streamPos == old(streamPos) + |out|
      ensures r.Ok? ==> out == whole.data[old(streamPos)..] && whole.stop == Ended(inner.pos)
      ensures r.Err? ==> out <= whole.data[old(streamPos)..] && whole.stop == Failed(r.error)
    {
      hide Decode, DecodeChunk, ChunkedReader.Pending, ChunkedReader.Valid;
      ghost var start := streamPos;
      out := [];
      while true
        invariant Valid() && Views(whole) && start <= streamPos <= |whole.data| && out == whole.data[start..streamPos]
        decreases |whole.data| - streamPos
      {
        var size: nat :| size > 0;
        ghost var q := streamPos;
        var part := Read(size, whole);
        if part.Err? {
          return out, Err(part.error);
        } else if |part.value| == 0 {
          return out, Ok(());
        }
        assert whole.data[start..q] + whole.data[q..streamPos] == whole.data[start..streamPos];
        out := out + part.value;
      }
    }

    /** Seeking can only go forward, and stops at the end of the stream. */
    method Seek(from: SeekFrom, ghost whole: Decoded) returns (r: Result<nat, IoError>)
      requires Valid() && Views(whole)
      modifies inner, this
      ensures Valid()
      ensures r.Ok? ==> r.value == streamPos
      ensures var target := old(SeekTarget(from, streamPos, 0));
              if from == Current(0) then r.Ok? && streamPos == old(streamPos)
              else if from.End? || target < old(streamPos) then r == Err(Unsupported) && streamPos == old(streamPos)
              else if target - old(streamPos) > U64_MAX then r == Err(InvalidInput) && streamPos == old(streamPos)
              else if r.Ok? then
                streamPos == Min(target, |whole.data|) && (streamPos < target ==> whole.stop == Ended(inner.pos))
              else whole.stop == Failed(r.error)
      ensures r.Ok? && old(SeekTarget(from, streamPos, 0)) <= streamPos ==> Views(whole)
      ensures r == Err(Unsupported) && whole.stop != Failed(Unsupported) ==> Views(whole)
    {
      hide Decode, DecodeChunk, ChunkedReader.Pending;
      if from == Current(0) {
        return Ok(streamPos);
      } else if from.End? {
        return Err(Unsupported);
      }
      ghost var target := SeekTarget(from, streamPos, 0);
      var diff := if from.Start? then from.offset - streamPos else from.delta;
      if diff < 0 {
        return Err(Unsupported);
      } else if diff > U64_MAX {
        return Err(InvalidInput);
      }
      var remaining: nat := diff;
      while remaining > 0
        invariant Valid() && Views(whole) && streamPos + remaining == target && streamPos <= |whole.data|
      {
        var w := FillBuf();
        if w.Err? {
          return Err(w.error);
        }
        var n := Min(|w.value|, remaining);
        if n == 0 {
          break;
        }
        Consume(n);
        remaining := remaining - n;
      }
      return Ok(streamPos);
    }
  }

  // ------------------------------------------------------------------
  // Writing
  // ------------------------------------------------------------------

  /** What a writer has done: the chunks it wrote, and the data it holds back. */
  datatype Written = Written(chunks: seq<bytes>, held: bytes)

  /** One write: the data held back becomes a chunk once there is enough of it. */
  function WriteStep(w: Written, data: bytes, minChunkSize: nat): (r: Written) {
    var held := w.held + data;
    if |held| >= minChunkSize then Written(w.chunks + [held], []) else Written(w.chunks, held)
  }

  function WriteAll(w: Written, parts: seq<bytes>, minChunkSize: nat): (r: Written)
    decreases |parts|
  {
    if parts == [] then w else WriteAll(WriteStep(w, parts[0], minChunkSize), parts[1..], minChunkSize)
  }

  class ChunkedWriter {
    var inner: bytes
    var chunkBuffer: bytes
    const minChunkSize: nat
    var streamStarted: bool
    ghost var chunks: seq<bytes>

    /** The output is the chunks written since the stream was opened. */
    ghost predicate Valid()
      reads this
    {
      inner == EncodeAll(chunks)
    }

    ghost function Abs(): Written
      reads this
    {
      Written(chunks, chunkBuffer)
    }

    constructor (minChunkSize: nat)
      ensures Valid() && this.minChunkSize == minChunkSize && Abs() == Written([], []) && !streamStarted
    {
      inner, chunkBuffer, streamStarted, chunks := [], [], false, [];
      this.minChunkSize := minChunkSize;
    }

    method WriteChunkBuffer() returns (n: nat)
      requires Valid()
      modifies this`inner, this`chunkBuffer, this`chunks
      ensures Valid() && Abs() == Written(old(chunks) + [old(chunkBuffer)], [])
      ensures n == |inner| - old(|inner|)
    {
      hide Print;
      ghost var data := chunkBuffer;
      var header := Print(|chunkBuffer|, Hex) + CRLF;
      inner := inner + header;
      chunkBuffer := chunkBuffer + CRLF;
      inner := inner + chunkBuffer;
      n := |header| + |chunkBuffer|;
      chunkBuffer := [];
      EncodeAllAppend(chunks, [data]);
      assert EncodeAll([data]) == EncodeChunk(data) + [];
      assert inner == old(inner) + EncodeChunk(data);
      chunks := chunks + [data];
    }

    method Write(buf: bytes) returns (n: nat)
      requires Valid()
      modifies this
      ensures Valid() && n == |buf| && streamStarted
      ensures Abs() == WriteStep(old(Abs()), buf, minChunkSize)
    {
      streamStarted := true;
      chunkBuffer := chunkBuffer + buf;
      if |chunkBuffer| >= minChunkSize {
        var m := WriteChunkBuffer();
      }
      return |buf|;
    }

    /** Writes what is held back and the terminator; with nothing held back the terminator comes twice. */
    method Finish()
      requires Valid()
      modifies this
      ensures old(streamStarted) || old(chunkBuffer) != [] ==>
                && !streamStarted && chunkBuffer == []
                && inner == EncodeAll(old(chunks) + [old(chunkBuffer)]) + TERMINATOR
      ensures !old(streamStarted) && old(chunkBuffer) == [] ==> inner == old(inner) && chunkBuffer == []
    {
      if |chunkBuffer| == 0 && !streamStarted {
        return;
      }
      var n := WriteChunkBuffer();
      inner := inner + TERMINATOR;
      streamStarted := false;
    }
  }

  // ------------------------------------------------------------------
  // Writing, then reading
  // ------------------------------------------------------------------

  /** No data gets lost or out of order on the way into chunks. */
  lemma {:induction false} WriteAllKeepsData(w: Written, parts: seq<bytes>, minChunkSize: nat)
    ensures var r := WriteAll(w, parts, minChunkSize);
            Concat(r.chunks) + r.held == Concat(w.chunks) + w.held + Concat(parts)
    decreases |parts|
  {
    if parts == [] {
      assert Concat(w.chunks) + w.held + [] == Concat(w.chunks) + w.held;
    } else {
      var next, held := WriteStep(w, parts[0], minChunkSize), w.held + parts[0];
      WriteAllKeepsData(next, parts[1..], minChunkSize);
      ConcatAppend(w.chunks, [held]);
      assert Concat([held]) == held + [];
      assert Concat(next.chunks) + next.held == Concat(w.chunks) + w.held + parts[0];
      assert Concat(w.chunks) + w.held + parts[0] + Concat(parts[1..]) == Concat(w.chunks) + w.held + Concat(parts);
    }
  }

  /** With a positive minimum no empty chunk is written. */
  lemma {:induction false} WriteAllNoneEmpty(w: Written, parts: seq<bytes>, minChunkSize: nat)
    requires minChunkSize > 0 && NoneEmpty(w.chunks)
    ensures NoneEmpty(WriteAll(w, parts, minChunkSize).chunks)
    decreases |parts|
  {
    if parts != [] {
      WriteAllNoneEmpty(WriteStep(w, parts[0], minChunkSize), parts[1..], minChunkSize);
    }
  }

  /**
   Every chunk has the minimum length and had it not before the write that
   completed it, and what is held back is shorter.
   */
  lemma {:induction false} ChunksAreLongEnough(w: Written, parts: seq<bytes>, minChunkSize: nat)
    requires minChunkSize > 0 && |w.held| < minChunkSize
    ensures var r := WriteAll(w, parts, minChunkSize);
            && |r.held| < minChunkSize && w.chunks <= r.chunks
            && forall i :: |w.chunks| <= i < |r.chunks| ==>
                 minChunkSize <= |r.chunks[i]| && exists part <- parts :: |r.chunks[i]| - |part| < minChunkSize
    decreases |parts|
  {
    if parts != [] {
      var next, r := WriteStep(w, parts[0], minChunkSize), WriteAll(w, parts, minChunkSize);
      ChunksAreLongEnough(next, parts[1..], minChunkSize);
      forall i | |w.chunks| <= i < |r.chunks|
        ensures minChunkSize <= |r.chunks[i]| && exists part <- parts :: |r.chunks[i]| - |part| < minChunkSize
      {
        if i < |next.chunks| {
          assert next.chunks[i] == r.chunks[i] == w.held + parts[0];
          assert parts[0] in parts;
        } else {
          var part :| part in parts[1..] && |r.chunks[i]| - |part| < minChunkSize;
          assert part in parts;
        }
      }
    }
  }

  /** Without a minimum every write is a chunk of its own. */
  lemma {:induction false} WriteAllVerbatim(w: Written, parts: seq<bytes>)
    requires w.held == []
    ensures WriteAll(w, parts, 0) == Written(w.chunks + parts, [])
    decreases |parts|
  {
    if parts == [] {
      assert w.chunks + parts == w.chunks;
    } else {
      assert [] + parts[0] == parts[0];
      WriteAllVerbatim(WriteStep(w, parts[0], 0), parts[1..]);
      assert w.chunks + [parts[0]] + parts[1..] == w.chunks + parts;
    }
  }

  /** Whether what was written can be read again in full. */
  predicate Survives(parts: seq<bytes>, minChunkSize: nat) {
    minChunkSize > 0 || NoDataBehindEmpty(parts)
  }

  /** What a reader decodes of the writes: everything, unless an empty write ended the stream early. */
  lemma WrittenDecodes(parts: seq<bytes>, minChunkSize: nat)
    requires parts != [] && |Concat(parts)| <= U64_MAX
    ensures var w := WriteAll(Written([], []), parts, minChunkSize);
            var d := Decode(EncodeAll(w.chunks + [w.held]) + TERMINATOR, 0);
            d.stop.Ended? && (d.data == Concat(parts) <==> Survives(parts, minChunkSize))
  {
    hide Decode, EncodeAll, Concat, UpToEmpty, NoDataBehindEmpty;
    var w := WriteAll(Written([], []), parts, minChunkSize);
    var all := w.chunks + [w.held];
    WriteAllKeepsData(Written([], []), parts, minChunkSize);
    ConcatNothing(w.held);
    ConcatAppend(w.chunks, [w.held]);
    assert Concat(all) == Concat(parts);
    var s := EncodeAll(all) + TERMINATOR;
    assert EncodeAll(all) + (TERMINATOR + []) == s;
    HoldsAll(s);
    DecodeAll(s, 0, all, []);
    UpToEmptyIsAll(all);
    if minChunkSize > 0 {
      WriteAllNoneEmpty(Written([], []), parts, minChunkSize);
      NoneEmptyButLast(w.chunks, w.held);
    } else {
      WriteAllVerbatim(Written([], []), parts);
      assert [] + parts == parts;
      EmptyLast(parts);
    }
  }

  lemma ConcatNothing(held: bytes)
    ensures Concat([]) == [] && Concat([held]) == held && [] + [] + Concat([held]) == held
    ensures forall x: bytes :: [] + [] + x == x
  {
    assert Concat([held]) == held + [];
  }

  lemma {:induction false} NoneEmptyButLast(chunks: seq<bytes>, last: bytes)
    requires NoneEmpty(chunks)
    ensures NoDataBehindEmpty(chunks + [last])
  {
    var all := chunks + [last];
    if chunks == [] {
      assert all[1..] == [];
      ConcatNothing(last);
    } else {
      assert all[1..] == chunks[1..] + [last];
      NoneEmptyButLast(chunks[1..], last);
    }
  }

  lemma {:induction false} EmptyLast(parts: seq<bytes>)
    ensures NoDataBehindEmpty(parts + [[]]) <==> NoDataBehindEmpty(parts)
  {
    var all := parts + [[]];
    if parts == [] {
      assert all[1..] == [];
    } else {
      assert all[1..] == parts[1..] + [[]];
      ConcatAppend(parts, [[]]);
      ConcatNothing([]);
      EmptyLast(parts[1..]);
    }
  }

  /** Writes `parts`, finishes the stream, and reads it back through any buffers. */
  method RoundTrip(parts: seq<bytes>, minChunkSize: nat) returns (encoded: bytes, out: bytes, r: Result<(), IoError>)
    requires |Concat(parts)| <= U64_MAX
    ensures |encoded| <= I64_MAX ==> r.Ok? && (out == Concat(parts) <==> Survives(parts, minChunkSize))
  {
    hide Decode, EncodeAll, Concat, NoDataBehindEmpty;
    var writer := new ChunkedWriter(minChunkSize);
    for i := 0 to |parts|
      invariant writer.Valid() && writer.minChunkSize == minChunkSize && writer.streamStarted == (i > 0)
      invariant WriteAll(writer.Abs(), parts[i..], minChunkSize) == WriteAll(Written([], []), parts, minChunkSize)
      invariant i == 0 ==> writer.Abs() == Written([], [])
    {
      assert parts[i..][1..] == parts[i + 1..];
      var n := writer.Write(parts[i]);
    }
    writer.Finish();
    encoded := writer.inner;
    if |encoded| > I64_MAX {
      return encoded, [], Err(InvalidInput);
    }
    if |parts| > 0 {
      WrittenDecodes(parts, minChunkSize);
    } else {
      NothingDecodes(minChunkSize);
    }
    var inner := new TrackedReader(encoded);
    var reader := new ChunkedReader(inner);
    out, r := reader.ReadToEnd(Decode(encoded, 0));
  }

  lemma NothingDecodes(minChunkSize: nat)
    ensures EncodeAll([]) == [] && Decode([], 0) == Decoded([], Ended(0)) && Concat([]) == [] && Survives([], minChunkSize)
  {
  }
}

/**
 Seeking, told by what is read behind it (fastwarc-rs/src/stream_io/bufread.rs,
 chunked.rs, fastwarc-py/fastwarc/src/stream_io/mod.rs): for each kind of reader
 the text that a position counted from the start, the end or the place at hand
 leaves to be read.
 */
module Seeking {
  import opened Wrappers
  import opened ByteStrings
  import opened Readers
  import opened PyReader
  import opened ChunkedFormat
  import opened ChunkedStreams

  /**
   The answer to a seek within `text`, from `pos`, and all that is read behind it:
   the text without its first bytes, its last bytes, or what lay ahead shortened
   by what is passed over or with what is gone back over in front.
   */
  predicate SoughtIn(text: bytes, pos: nat, from: SeekFrom, r: Result<nat, IoError>, out: bytes)
    requires pos <= |text|
  {
    match from
    case Start(offset) => offset <= |text| ==> r == Ok(offset) && out == text[offset..]
    case End(delta) =>
      && (0 <= |text| + delta && delta <= 0 ==> r == Ok(|text| - |out|) && |out| == -delta && out == text[|text| - |out|..])
      && (|text| + delta < 0 ==> r == Err(InvalidInput) && out == text[pos..])
    case Current(delta) =>
      && (0 <= delta <= |text| - pos ==> r == Ok(pos + delta) && out == text[pos..][delta..])
      && (0 <= pos + delta && delta < 0 ==> r == Ok(pos + delta) && out == text[pos + delta..pos] + text[pos..])
      && (pos + delta < 0 ==> r == Err(InvalidInput) && out == text[pos..])
  }

  /** Behind the end there is nothing. */
  predicate SoughtBehind(text: bytes, pos: nat, from: SeekFrom, out: bytes) {
    match from
    case Start(offset) => |text| < offset <= I64_MAX ==> out == []
    case End(delta) => 0 < delta <= I64_MAX - |text| ==> out == []
    case Current(delta) => |text| - pos < delta <= I64_MAX - pos ==> out == []
  }

  lemma TextToEnd(s: bytes, p: nat)
    ensures Text(s, p, |s|) == if p <= |s| then s[p..] else []
  {
  }

  lemma WentBack(text: bytes, pos: nat, back: nat)
    requires back <= pos <= |text|
    ensures text[pos - back..] == text[pos - back..pos] + text[pos..]
  {
  }

  /** Where a seek has to land so that this is what is read. */
  predicate Landed(len: nat, pos: nat, from: SeekFrom, r: Result<nat, IoError>, q: nat) {
    var target := SeekTarget(from, pos, len);
    && (0 <= target <= len ==> r == Ok(target) && q == target)
    && (target < 0 ==> r == Err(InvalidInput) && q == pos)
    && (len < target <= I64_MAX ==> q >= len)
  }

  lemma LandingTells(text: bytes, pos: nat, from: SeekFrom, r: Result<nat, IoError>, q: nat, out: bytes)
    requires Landed(|text|, pos, from, r, q) && out == if q <= |text| then text[q..] else []
    ensures pos <= |text| ==> SoughtIn(text, pos, from, r, out)
    ensures SoughtBehind(text, pos, from, out)
  {
    if from.Current? && from.delta < 0 && pos + from.delta >= 0 && pos <= |text| {
      WentBack(text, pos, -from.delta);
    }
  }

  // ------------------------------------------------------------------
  // The buffered reader
  // ------------------------------------------------------------------

  method ReadRest(reader: TrackedReader) returns (out: bytes)
    requires reader.Valid()
    modifies reader
    ensures reader.Valid() && out == Text(reader.data, old(reader.pos), |reader.data|)
  {
    ghost var p := reader.pos;
    out := [];
    while true
      invariant reader.Valid() && reader.pos == p + |out| && out == Text(reader.data, p, reader.pos)
      invariant out != [] ==> reader.pos <= |reader.data|
      decreases |reader.data| - reader.pos
    {
      var size: nat :| size > 0;
      ghost var q := reader.pos;
      var part := reader.Read(size);
      if |part| == 0 {
        break;
      }
      TextExtend(reader.data, p, q, reader.pos);
      out := out + part;
    }
  }

  method SeekThenRead(reader: TrackedReader, from: SeekFrom) returns (r: Result<nat, IoError>, out: bytes)
    requires reader.Valid()
    modifies reader
    ensures reader.Valid()
    ensures old(reader.pos) <= |reader.data| ==> SoughtIn(reader.data, old(reader.pos), from, r, out)
    ensures SoughtBehind(reader.data, old(reader.pos), from, out)
  {
    hide SoughtIn, SoughtBehind;
    r := reader.Seek(from);
    ghost var q := reader.pos;
    TextToEnd(reader.data, q);
    out := ReadRest(reader);
    LandingTells(reader.data, old(reader.pos), from, r, q, out);
  }

  // ------------------------------------------------------------------
  // The window
  // ------------------------------------------------------------------

  /** The window lies within the data; these are its bytes. */
  ghost predicate Shows(reader: LimitedReader, window: bytes)
    reads reader, reader.inner
  {
    && reader.Valid() && |window| == reader.limit
    && reader.inner.pos - reader.pos + reader.limit <= |reader.inner.data|
    && window == Text(reader.inner.data, reader.inner.pos - reader.pos, reader.inner.pos - reader.pos + reader.limit)
  }

  method SeekInWindow(reader: LimitedReader, from: SeekFrom, ghost window: bytes) returns (r: Result<nat, IoError>, out: bytes)
    requires Shows(reader, window)
    modifies reader, reader.inner
    ensures Shows(reader, window)
    ensures SoughtIn(window, old(reader.pos), from, r, out) && SoughtBehind(window, old(reader.pos), from, out)
  {
    hide SoughtIn, SoughtBehind, Text;
    ghost var data, base := reader.inner.data, reader.inner.pos - reader.pos;
    r := reader.Seek(from);
    ghost var q := reader.pos;
    TextDrop(data, base, base + reader.limit, q);
    out := reader.ReadToEnd();
    LandingTells(window, old(reader.pos), from, r, q, out);
  }

  // ------------------------------------------------------------------
  // The adapter
  // ------------------------------------------------------------------

  method SeekThroughAdapter(reader: PyReaderAdapter, from: SeekFrom) returns (r: Result<nat, IoError>, out: bytes)
    requires reader.Valid() && reader.buf.Length > 0
    modifies reader, reader.buf, reader.inner
    ensures reader.Valid()
    ensures old(reader.Position()) <= |reader.inner.data| ==>
              SoughtIn(reader.inner.data, old(reader.Position()), from, r, out)
    ensures SoughtBehind(reader.inner.data, old(reader.Position()), from, out)
  {
    hide PyReaderAdapter.Position, SoughtIn, SoughtBehind;
    ghost var data, p := reader.inner.data, reader.Position();
    assert |data| <= I64_MAX;
    hide PyReaderAdapter.Valid;
    r := reader.Seek(from);
    ghost var q := reader.Position();
    TextToEnd(data, q);
    out := ReadExactly(reader, |reader.inner.data|);
    LandingTells(data, p, from, r, q, out);
  }

  /** The same of the bare byte array that runs are compared with. */
  lemma PlainSeek(data: bytes, pos: nat, from: SeekFrom)
    requires |data| <= I64_MAX
    ensures var (outs, end) := PlainRun(data, pos, [SeekTo(from), ReadFully(|data|)], [0, 0], true);
            && |outs| == 2 && outs[0].Position? && outs[1].Read?
            && (pos <= |data| ==> SoughtIn(data, pos, from, outs[0].result, outs[1].data))
            && SoughtBehind(data, pos, from, outs[1].data)
  {
    hide SoughtIn, SoughtBehind;
    var ops: seq<Op>, taken: seq<nat> := [SeekTo(from), ReadFully(|data|)], [0, 0];
    var (sought, q) := PlainStep(data, pos, ops[0], 0, true);
    var (read, end) := PlainStep(data, q, ops[1], 0, true);
    assert ops[1..] == [ReadFully(|data|)] && taken[1..] == [0] && ops[1..][1..] == [] && taken[1..][1..] == [];
    assert PlainRun(data, q, ops[1..], taken[1..], true).0 == [read];
    TextToEnd(data, q);
    LandingTells(data, pos, from, sought.result, q, read.data);
  }

  // ------------------------------------------------------------------
  // Chunked streams
  // ------------------------------------------------------------------

  /** A chunked stream is sought forward only: from the start or from where it stands. */
  method SeekAhead(reader: ChunkedReader, from: SeekFrom, ghost whole: Decoded)
    returns (r: Result<nat, IoError>, out: bytes)
    requires reader.Valid() && reader.Views(whole) && whole.stop.Ended? && |whole.data| <= U64_MAX
    requires match from
             case Start(offset) => reader.streamPos <= offset <= |whole.data|
             case Current(delta) => 0 <= delta <= |whole.data| - reader.streamPos
             case End(_) => true
    modifies reader, reader.inner
    ensures match from
            case Start(offset) => r == Ok(offset) && out == whole.data[offset..]
            case Current(delta) =>
              r == Ok(old(reader.streamPos) + delta) && out == whole.data[old(reader.streamPos)..][delta..]
            case End(_) => r == Err(Unsupported) && out == whole.data[old(reader.streamPos)..]
  {
    hide Decode, DecodeChunk, ChunkedReader.Valid;
    r := reader.Seek(from, whole);
    var end;
    out, end := reader.ReadToEnd(whole);
  }
}

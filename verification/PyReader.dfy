/**
 A seekable read buffer over a Python stream (fastwarc-py/fastwarc/src/stream_io/mod.rs,
 `PyReaderAdapter`). Whatever is read and sought through it, the results are
 those of the bare byte array behind the stream.
 */
module PyReader {
  import opened Wrappers
  import opened ByteStrings
  import opened Readers

  /** The Python stream: reads may come up short, seeking in front of the start raises. */
  class PyStream {
    const data: bytes
    var pos: nat

    constructor (data: bytes)
      ensures this.data == data && pos == 0
    {
      this.data := data;
      pos := 0;
    }

    method Read(len: nat) returns (out: bytes)
      modifies this
      ensures pos == old(pos) + |out| && out == Text(data, old(pos), pos) && |out| <= len
      ensures |out| == 0 <==> len == 0 || old(pos) >= |data|
    {
      if len == 0 || pos >= |data| {
        return [];
      }
      var n: nat :| 0 < n <= len && n <= |data| - pos;
      out := data[pos..pos + n];
      pos := pos + n;
    }

    method Seek(from: SeekFrom) returns (r: Result<nat, IoError>)
      modifies this
      ensures r == SeekResult(SeekTarget(from, old(pos), |data|))
      ensures pos == if r.Ok? then r.value else old(pos)
    {
      var target := SeekTarget(from, pos, |data|);
      if target < 0 || target > I64_MAX {
        return Err(InvalidInput);
      }
      pos := target;
      return Ok(target);
    }
  }

  class PyReaderAdapter {
    const inner: PyStream
    const buf: array<byte>
    var pos: Option<nat>
    var bufPos: nat
    var bufLen: nat

    /** The buffer is the text the inner stream has just delivered, and the position is that of its unread part. */
    ghost predicate Valid()
      reads this, inner, buf
    {
      && inner.pos <= I64_MAX && |inner.data| <= I64_MAX
      && bufPos <= bufLen <= buf.Length && bufLen <= inner.pos
      && buf[..bufLen] == Text(inner.data, inner.pos - bufLen, inner.pos)
      && (bufLen > 0 ==> inner.pos <= |inner.data|)
      && (if pos.Some? then inner.pos == pos.value + (bufLen - bufPos) else bufLen == 0)
    }

    /** The position a caller sees. */
    ghost function Position(): (r: nat)
      requires Valid()
      reads this, inner, buf
    {
      inner.pos - (bufLen - bufPos)
    }

    constructor (inner: PyStream, capacity: nat)
      requires inner.pos <= I64_MAX && |inner.data| <= I64_MAX
      ensures Valid() && this.inner == inner && buf.Length == capacity && fresh(buf) && Position() == inner.pos
    {
      this.inner := inner;
      pos := None;
      buf := new byte[capacity];
      bufPos, bufLen := 0, 0;
    }

    method StreamPosition() returns (r: nat)
      requires Valid()
      modifies this`pos
      ensures Valid() && r == Position() && pos == Some(r)
    {
      if pos.None? {
        pos := Some(inner.pos);
      }
      return pos.value;
    }

    /** The unread part of the buffer, refilled when empty; without a buffer it is always empty. */
    method FillBuf() returns (w: bytes)
      requires Valid()
      modifies this, buf, inner
      ensures Valid() && Position() == old(Position()) && pos.Some?
      ensures w == Text(inner.data, Position(), Position() + |w|) && |w| == bufLen - bufPos
      ensures |w| == 0 <==> buf.Length == 0 || Position() >= |inner.data|
    {
      hide Text;
      if bufPos < bufLen {
        assert buf[bufPos..bufLen] == buf[..bufLen][bufPos..bufLen];
        TextSlice(inner.data, inner.pos - bufLen, inner.pos, bufPos, bufLen);
        return buf[bufPos..bufLen];
      }
      if pos.None? {
        var start := StreamPosition();
      }
      var n := ReadInto();
      bufLen := n;
      bufPos := 0;
      return buf[..bufLen];
    }

    /** Reads from the inner stream into the front of the buffer. */
    method ReadInto() returns (n: nat)
      modifies buf, inner
      ensures n <= buf.Length && inner.pos == old(inner.pos) + n
      ensures buf[..n] == Text(inner.data, old(inner.pos), inner.pos)
      ensures n == 0 <==> buf.Length == 0 || old(inner.pos) >= |inner.data|
      ensures n > 0 ==> inner.pos <= |inner.data|
    {
      var data := inner.Read(buf.Length);
      n := |data|;
      forall i | 0 <= i < n {
        buf[i] := data[i];
      }
    }

    method Consume(amount: nat)
      requires Valid() && pos.Some? && amount <= bufLen - bufPos
      modifies this`pos, this`bufPos
      ensures Valid() && pos.Some? && Position() == old(Position()) + amount
    {
      pos := Some(pos.value + amount);
      bufPos := bufPos + amount;
    }

    /** A read gives a part of the text at the position, as a plain read would; without a buffer it gives nothing. */
    method Read(len: nat) returns (out: bytes)
      requires Valid()
      modifies this, buf, inner
      ensures Valid() && Position() == old(Position()) + |out| && |out| <= len
      ensures out == Text(inner.data, old(Position()), Position())
      ensures |out| == 0 <==> len == 0 || buf.Length == 0 || old(Position()) >= |inner.data|
    {
      var w := FillBuf();
      var n := Min(|w|, len);
      TextSlice(inner.data, Position(), Position() + |w|, 0, n);
      out := w[..n];
      Consume(n);
    }

    /** A target inside the buffer is reached without the inner stream. */
    method SeekInBuffer(p: nat, selfPos: nat) returns (found: bool)
      requires Valid() && pos == Some(selfPos)
      modifies this`pos, this`bufPos
      ensures Valid() && pos.Some? && bufLen == old(bufLen)
      ensures if found then Position() == p <= I64_MAX else Position() == selfPos && bufPos == old(bufPos)
    {
      hide Text;
      var bufStart := if selfPos < bufPos then 0 else selfPos - bufPos;
      found := bufStart <= p < bufStart + bufLen;
      if found {
        bufPos := p - bufStart;
        pos := Some(p);
      }
    }

    /** Inside the buffer nothing is sought; the result is that of a seek on the plain stream. */
    method Seek(from: SeekFrom) returns (r: Result<nat, IoError>)
      requires Valid()
      modifies this, inner
      ensures Valid()
      ensures r == SeekResult(SeekTarget(from, old(Position()), |inner.data|))
      ensures Position() == if r.Ok? then r.value else old(Position())
    {
      hide Text;
      var selfPos := StreamPosition();
      if from == Current(0) {
        return Ok(selfPos);
      }
      if from.Current? && (from.delta + selfPos < 0 || from.delta + selfPos > U64_MAX) {
        return Err(InvalidInput);
      }
      if !from.End? {
        var p: nat := if from.Start? then from.offset else from.delta + selfPos;
        var found := SeekInBuffer(p, selfPos);
        if found {
          return Ok(p);
        }
      }
      var buffered := bufLen - bufPos;
      var target := if from.Current? then Current(from.delta - buffered) else from;
      r := inner.Seek(target);
      if r.Ok? {
        pos := Some(r.value);
        bufPos := 0;
        bufLen := 0;
      }
    }
  }

  // ------------------------------------------------------------------
  // Runs
  // ------------------------------------------------------------------

  datatype Op = ReadFully(len: nat) | SeekTo(from: SeekFrom) | Tell | PeekThenConsume(max: nat)

  datatype Outcome = Read(data: bytes) | Position(result: Result<nat, IoError>)

  /**
   What a bare byte array with a position does, one that delivers nothing if the
   adapter has no buffer; `taken` is how much a peek may take.
   */
  function PlainStep(data: bytes, pos: nat, op: Op, taken: nat, buffered: bool): (r: (Outcome, nat)) {
    match op
    case ReadFully(len) =>
      var end := if buffered && pos < |data| then Min(pos + len, |data|) else pos;
      (Read(Text(data, pos, end)), end)
    case SeekTo(from) =>
      var target := SeekResult(SeekTarget(from, pos, |data|));
      (Position(target), if target.Ok? then target.value else pos)
    case Tell => (Position(Ok(pos)), pos)
    case PeekThenConsume(_) => (Read(Text(data, pos, pos + taken)), pos + taken)
  }

  /** The plain run, given how much each peek took. */
  function PlainRun(data: bytes, pos: nat, ops: seq<Op>, taken: seq<nat>, buffered: bool): (r: (seq<Outcome>, nat))
    requires |taken| == |ops|
    decreases |ops|
  {
    if ops == [] then ([], pos)
    else
      var (out, next) := PlainStep(data, pos, ops[0], taken[0], buffered);
      var rest := PlainRun(data, next, ops[1..], taken[1..], buffered);
      ([out] + rest.0, rest.1)
  }

  /** How much a peek may take: at most what it asks for and what there is, and nothing only if there is nothing. */
  predicate PeekFits(data: bytes, pos: nat, op: Op, taken: nat, buffered: bool) {
    op.PeekThenConsume? ==>
      && taken <= op.max && (taken > 0 ==> pos + taken <= |data|)
      && (taken == 0 <==> op.max == 0 || !buffered || pos >= |data|)
  }

  /** The same for every peek of a run. */
  predicate PeeksFit(data: bytes, pos: nat, ops: seq<Op>, taken: seq<nat>, buffered: bool)
    requires |taken| == |ops|
    decreases |ops|
  {
    ops != [] ==>
      && PeekFits(data, pos, ops[0], taken[0], buffered)
      && PeeksFit(data, PlainStep(data, pos, ops[0], taken[0], buffered).1, ops[1..], taken[1..], buffered)
  }

  method ReadExactly(reader: PyReaderAdapter, len: nat) returns (out: bytes)
    requires reader.Valid()
    modifies reader, reader.buf, reader.inner
    ensures reader.Valid()
    ensures var step := PlainStep(reader.inner.data, old(reader.Position()), ReadFully(len), 0, reader.buf.Length > 0);
            Read(out) == step.0 && reader.Position() == step.1
  {
    hide PyReaderAdapter.Valid;
    ghost var data, start := reader.inner.data, reader.Position();
    out := [];
    while |out| < len
      invariant reader.Valid() && |out| <= len && reader.Position() == start + |out|
      invariant out == Text(data, start, reader.Position()) && (reader.buf.Length == 0 ==> out == [])
    {
      ghost var mid := reader.Position();
      var part := reader.Read(len - |out|);
      if |part| == 0 {
        break;
      }
      TextExtend(data, start, mid, reader.Position());
      out := out + part;
    }
  }

  /** One step of a run; a peek takes at most what it asks for, and nothing only at the end. */
  method Step(reader: PyReaderAdapter, op: Op) returns (out: Outcome, taken: nat)
    requires reader.Valid()
    modifies reader, reader.buf, reader.inner
    ensures reader.Valid()
    ensures (out, reader.Position()) == PlainStep(reader.inner.data, old(reader.Position()), op, taken, reader.buf.Length > 0)
    ensures PeekFits(reader.inner.data, old(reader.Position()), op, taken, reader.buf.Length > 0)
  {
    hide PyReaderAdapter.Valid;
    taken := 0;
    match op
    case ReadFully(len) =>
      var data := ReadExactly(reader, len);
      out := Read(data);
    case SeekTo(from) =>
      var r := reader.Seek(from);
      out := Position(r);
    case Tell =>
      var p := reader.StreamPosition();
      out := Position(Ok(p));
    case PeekThenConsume(max) =>
      var w := reader.FillBuf();
      taken := Min(|w|, max);
      TextSlice(reader.inner.data, reader.Position(), reader.Position() + |w|, 0, taken);
      out := Read(w[..taken]);
      reader.Consume(taken);
  }

  /** Over every run the adapter answers as the bare byte array does; how much a peek takes depends on the buffer. */
  method Run(reader: PyReaderAdapter, ops: seq<Op>) returns (outs: seq<Outcome>, taken: seq<nat>)
    requires reader.Valid()
    modifies reader, reader.buf, reader.inner
    ensures reader.Valid() && |taken| == |ops|
    ensures (outs, reader.Position()) == PlainRun(reader.inner.data, old(reader.Position()), ops, taken, reader.buf.Length > 0)
    ensures PeeksFit(reader.inner.data, old(reader.Position()), ops, taken, reader.buf.Length > 0)
    decreases |ops|
  {
    hide PyReaderAdapter.Valid, PyReaderAdapter.Position;
    if |ops| == 0 {
      return [], [];
    }
    var out, t := Step(reader, ops[0]);
    var more, ts := Run(reader, ops[1..]);
    outs, taken := [out] + more, [t] + ts;
    assert taken[1..] == ts;
  }
}

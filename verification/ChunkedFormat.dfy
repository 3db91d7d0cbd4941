/**
 The chunked transfer coding as the codec reads and writes it
 (fastwarc-rs/src/stream_io/chunked.rs; section 7.1 of RFC 9112, without chunk
 extensions and trailers).
 */
module ChunkedFormat {
  import opened Wrappers
  import opened ByteStrings
  import opened Readers
  import opened HeaderText
  import opened Numerals

  // ------------------------------------------------------------------
  // Decoding
  // ------------------------------------------------------------------

  /** How decoding stops: at the end of a chunked stream, or at an error. */
  datatype Stop = Ended(pos: nat) | Failed(error: IoError)

  /** The payload bytes up to the first end of a stream or error, and what it was. */
  datatype Decoded = Decoded(data: bytes, stop: Stop)

  function Prepend(data: bytes, d: Decoded): (r: Decoded)
    ensures r.stop == d.stop && |r.data| == |data| + |d.data|
  {
    Decoded(data + d.data, d.stop)
  }

  /** Decoding from a chunk header on. */
  function Decode(s: bytes, p: nat): (r: Decoded)
    decreases |s| - p, 0
  {
    if p >= |s| then Decoded([], Ended(p))
    else
      var e := LineEnd(s, p, |s|);
      LineAdvances(s, p);
      match ParseUnsigned(Trim(Text(s, p, e)), Hex)
      case None => Decoded([], Failed(InvalidData))
      case Some(size) =>
        if size > 0 then DecodeChunk(s, e, size)
        else if e + 2 <= |s| then Decoded([], Ended(e + 2))
        else Decoded([], Failed(UnexpectedEof))
  }

  /** Decoding inside a chunk of which `left` bytes are missing. */
  function DecodeChunk(s: bytes, p: nat, left: nat): (r: Decoded)
    decreases |s| - p, 1
  {
    if p + left + 2 <= |s| then Prepend(Text(s, p, p + left), Decode(s, p + left + 2))
    else Decoded(Text(s, p, Min(p + left, |s|)), Failed(UnexpectedEof))
  }

  lemma LineAdvances(s: bytes, p: nat)
    requires p < |s|
    ensures p < LineEnd(s, p, |s|) <= |s|
  {
  }

  lemma PrependAssoc(a: bytes, b: bytes, d: Decoded)
    ensures Prepend(a, Prepend(b, d)) == Prepend(a + b, d)
  {
    assert a + (b + d.data) == a + b + d.data;
  }

  lemma PrependNothing(d: Decoded)
    ensures Prepend([], d) == d
  {
    assert [] + d.data == d.data;
  }

  /** A chunk may be taken apart anywhere before its last byte. */
  lemma DecodeChunkSplits(s: bytes, p: nat, n: nat, left: nat)
    requires n < left && p + n <= |s|
    ensures DecodeChunk(s, p, left) == Prepend(Text(s, p, p + n), DecodeChunk(s, p + n, left - n))
  {
    hide Decode;
    var end := Min(p + left, |s|);
    TextExtend(s, p, p + n, end);
    if p + left + 2 <= |s| {
      PrependAssoc(Text(s, p, p + n), Text(s, p + n, p + left), Decode(s, p + left + 2));
    }
  }

  // ------------------------------------------------------------------
  // Encoding
  // ------------------------------------------------------------------

  const TERMINATOR: bytes := [48, CR, LF, CR, LF]

  function EncodeChunk(data: bytes): (r: bytes) {
    Print(|data|, Hex) + CRLF + data + CRLF
  }

  function EncodeAll(chunks: seq<bytes>): (r: bytes) {
    if chunks == [] then [] else EncodeChunk(chunks[0]) + EncodeAll(chunks[1..])
  }

  function Concat(parts: seq<bytes>): (r: bytes) {
    if parts == [] then [] else parts[0] + Concat(parts[1..])
  }

  /** What is written in front of the first empty part. */
  function UpToEmpty(parts: seq<bytes>): (r: bytes) {
    if parts == [] || parts[0] == [] then [] else parts[0] + UpToEmpty(parts[1..])
  }

  /** No part with data stands behind an empty one. */
  predicate NoDataBehindEmpty(parts: seq<bytes>) {
    parts == [] || (if parts[0] == [] then Concat(parts) == [] else NoDataBehindEmpty(parts[1..]))
  }

  lemma {:induction false} UpToEmptyIsAll(parts: seq<bytes>)
    ensures UpToEmpty(parts) == Concat(parts) <==> NoDataBehindEmpty(parts)
  {
    if parts != [] && parts[0] != [] {
      UpToEmptyIsAll(parts[1..]);
      var a, u, c := parts[0], UpToEmpty(parts[1..]), Concat(parts[1..]);
      assert (a + u)[|a|..] == u && (a + c)[|a|..] == c;
    }
  }

  lemma {:induction false} ConcatAppend(a: seq<bytes>, b: seq<bytes>)
    ensures Concat(a + b) == Concat(a) + Concat(b)
  {
    if a == [] {
      assert a + b == b;
    } else {
      assert (a + b)[1..] == a[1..] + b;
      ConcatAppend(a[1..], b);
    }
  }

  lemma {:induction false} EncodeAllAppend(a: seq<bytes>, b: seq<bytes>)
    ensures EncodeAll(a + b) == EncodeAll(a) + EncodeAll(b)
  {
    hide EncodeChunk;
    if a == [] {
      assert a + b == b;
    } else {
      assert (a + b)[1..] == a[1..] + b;
      EncodeAllAppend(a[1..], b);
    }
  }

  // ------------------------------------------------------------------
  // Decoding what was encoded
  // ------------------------------------------------------------------

  lemma EncodedParts(data: bytes, rest: bytes)
    ensures var head := Print(|data|, Hex) + CRLF;
            && EncodeChunk(data) + rest == head + (data + (CRLF + rest))
            && |EncodeChunk(data)| == |head| + |data| + 2 && |head| == |Print(|data|, Hex)| + 2
  {
    hide Print;
  }

  /** One encoded chunk is decoded as its data; the empty one ends the stream. */
  lemma DecodeEncoded(s: bytes, p: nat, data: bytes, rest: bytes)
    requires Holds(s, p, EncodeChunk(data) + rest) && |data| <= U64_MAX
    ensures var q := p + |EncodeChunk(data)|;
            Holds(s, q, rest) && Decode(s, p) == if data == [] then Decoded([], Ended(q)) else Prepend(data, Decode(s, q))
  {
    hide Decode, DecodeChunk, LineEnd, Print, ParseUnsigned, Trim, EncodeChunk, Holds, Text;
    var digits := Print(|data|, Hex);
    var head := digits + CRLF;
    EncodedParts(data, rest);
    HoldsRest(s, p, head, data + (CRLF + rest));
    HoldsRest(s, p + |head|, data, CRLF + rest);
    HoldsRest(s, p + |head| + |data|, CRLF, rest);
    HoldsEnds(s, p + |head| + |data| + 2, rest);
    PrintRoundTrip(|data|, Hex);
    HeadIsLine(s, p, digits);
    DecodeHead(s, p, p + |head|, |data|);
    if data != [] {
      WholeChunk(s, p + |head|, |data|);
    }
  }

  lemma WholeChunk(s: bytes, p: nat, left: nat)
    requires p + left + 2 <= |s|
    ensures DecodeChunk(s, p, left) == Prepend(Text(s, p, p + left), Decode(s, p + left + 2))
  {
  }

  /** A text without LF and the line end behind it are one line. */
  lemma HeadIsLine(s: bytes, p: nat, text: bytes)
    requires p + |text| + 2 <= |s| && Text(s, p, p + |text| + 2) == text + CRLF && LF !in text
    ensures LineEnd(s, p, |s|) == p + |text| + 2
  {
    var q, t := p + |text| + 1, text + CRLF;
    assert forall j :: p <= j < p + |text| + 2 ==> s[j] == Text(s, p, p + |text| + 2)[j - p] == t[j - p];
    LineEndSkip(s, p, q, |s|);
    assert s[q] == t[|text| + 1];
  }

  lemma DecodeHead(s: bytes, p: nat, e: nat, size: nat)
    requires p < e <= |s| && LineEnd(s, p, |s|) == e && ParseUnsigned(Trim(Text(s, p, e)), Hex) == Some(size)
    ensures size > 0 ==> Decode(s, p) == DecodeChunk(s, e, size)
    ensures size == 0 ==> Decode(s, p) == Decoded([], if e + 2 <= |s| then Ended(e + 2) else Failed(UnexpectedEof))
  {
  }

  lemma TerminatorIsEmptyChunk()
    ensures EncodeChunk([]) == TERMINATOR
  {
    assert Print(0, Hex) == [48];
  }

  /** Encoded chunks and a terminator decode to the data in front of the first empty chunk. */
  lemma {:induction false} DecodeAll(s: bytes, p: nat, chunks: seq<bytes>, rest: bytes)
    requires Holds(s, p, EncodeAll(chunks) + (TERMINATOR + rest)) && |Concat(chunks)| <= U64_MAX
    ensures Decode(s, p).stop.Ended? && Decode(s, p).data == UpToEmpty(chunks)
    ensures NoneEmpty(chunks) ==> Decode(s, p).stop == Ended(|s| - |rest|)
    decreases |chunks|
  {
    hide EncodeChunk, Holds, Decode;
    if chunks == [] {
      assert EncodeAll([]) + (TERMINATOR + rest) == TERMINATOR + rest;
      TerminatorIsEmptyChunk();
      DecodeEncoded(s, p, [], rest);
      HoldsEnds(s, p + |TERMINATOR|, rest);
    } else {
      var c, more := chunks[0], EncodeAll(chunks[1..]) + (TERMINATOR + rest);
      assert EncodeAll(chunks) + (TERMINATOR + rest) == EncodeChunk(c) + more;
      DecodeEncoded(s, p, c, more);
      if c != [] {
        DecodeAll(s, p + |EncodeChunk(c)|, chunks[1..], rest);
      }
    }
  }

  predicate NoneEmpty(chunks: seq<bytes>) {
    forall i :: 0 <= i < |chunks| ==> chunks[i] != []
  }

  lemma HoldsEnds(s: bytes, p: nat, t: bytes)
    requires Holds(s, p, t)
    ensures p + |t| == |s|
  {
  }
}

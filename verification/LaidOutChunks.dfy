/**
 Chunked bodies as other programs write them (fastwarc-rs/src/stream_io/chunked.rs):
 the length of a chunk in any spelling, in upper or lower case, with white space
 around it. Every such body decodes to its data, and what spells no number is an
 error.
 */
module LaidOutChunks {
  import opened Wrappers
  import opened ByteStrings
  import opened Readers
  import opened HeaderText
  import opened Numerals
  import opened ChunkedFormat
  import opened ChunkedStreams

  /** A chunk, its length as it is written, and the two bytes that follow the data. */
  datatype Chunk = Chunk(lead: bytes, size: bytes, trail: bytes, data: bytes, end: bytes)

  function HeadLine(c: Chunk): (r: bytes) {
    c.lead + c.size + c.trail + [LF]
  }

  function ChunkText(c: Chunk): (r: bytes) {
    HeadLine(c) + c.data + c.end
  }

  function ChunksText(cs: seq<Chunk>): (r: bytes) {
    if cs == [] then [] else ChunkText(cs[0]) + ChunksText(cs[1..])
  }

  function DataOf(cs: seq<Chunk>): (r: bytes) {
    if cs == [] then [] else cs[0].data + DataOf(cs[1..])
  }

  predicate GoodChunk(c: Chunk) {
    && AllSpace(c.lead) && AllSpace(c.trail) && LF !in c.lead && LF !in c.trail && |c.end| == 2
    && Spells(c.size, |c.data|, Hex) && |c.data| <= U64_MAX
  }

  /** Chunks with data, and then the empty one. */
  predicate GoodBody(cs: seq<Chunk>) {
    && cs != [] && (forall i :: 0 <= i < |cs| ==> GoodChunk(cs[i]))
    && (forall i :: 0 <= i < |cs| ==> (cs[i].data == [] <==> i == |cs| - 1))
  }

  lemma {:induction false} DigitsArePlain(s: bytes, r: Radix)
    requires DigitsValue(s, r).Some?
    ensures forall i :: 0 <= i < |s| ==> !IsSpace(s[i])
  {
    if s != [] {
      DigitsArePlain(s[..|s| - 1], r);
      assert DigitValue(s[|s| - 1]).Some?;
      assert forall i :: 0 <= i < |s| - 1 ==> s[i] == s[..|s| - 1][i];
    }
  }

  lemma ParsedIsPlain(s: bytes, r: Radix)
    requires ParseUnsigned(s, r).Some?
    ensures Trimmed(s) && LF !in s
  {
    DigitsArePlain(if s[0] == PLUS then s[1..] else s, r);
    if s[0] == PLUS {
      assert forall i :: 1 <= i < |s| ==> s[i] == s[1..][i - 1];
    }
  }

  /** The first line is the header. */
  lemma HeadEnds(s: bytes, p: nat, head: bytes)
    requires p + |head| < |s| && LF !in head && Text(s, p, p + |head| + 1) == head + [LF]
    ensures LineEnd(s, p, |s|) == p + |head| + 1
  {
    var q, t := p + |head|, head + [LF];
    assert forall j :: p <= j < q + 1 ==> s[j] == Text(s, p, q + 1)[j - p] == t[j - p];
    LineEndSkip(s, p, q, |s|);
    assert s[q] == t[|head|];
  }

  lemma HeadTrims(c: Chunk)
    requires GoodChunk(c)
    ensures ParseUnsigned(Trim(HeadLine(c)), Hex) == Some(|c.data|) && LF !in c.lead + c.size + c.trail
  {
    hide ParseUnsigned, Spells, Trim;
    ParseIff(c.size, |c.data|, Hex);
    ParsedIsPlain(c.size, Hex);
    assert HeadLine(c) == c.lead + c.size + (c.trail + [LF]);
    TrimMiddle(c.lead, c.size, c.trail + [LF]);
  }

  lemma ChunkParts(c: Chunk, rest: bytes)
    ensures ChunkText(c) + rest == HeadLine(c) + (c.data + (c.end + rest))
    ensures |ChunkText(c)| == |HeadLine(c)| + |c.data| + |c.end|
  {
    hide HeadLine;
  }

  /** Whatever the spelling of its length, a chunk decodes to its data; the empty one ends the body. */
  lemma DecodeSpelled(s: bytes, p: nat, c: Chunk, rest: bytes)
    requires GoodChunk(c) && Holds(s, p, ChunkText(c) + rest)
    ensures var q := p + |ChunkText(c)|;
            Holds(s, q, rest) && Decode(s, p) == if c.data == [] then Decoded([], Ended(q)) else Prepend(c.data, Decode(s, q))
  {
    hide Decode, DecodeChunk, LineEnd, ParseUnsigned, Trim, Holds, Text, Spells;
    var head, text := HeadLine(c), c.lead + c.size + c.trail;
    ChunkParts(c, rest);
    HoldsRest(s, p, head, c.data + (c.end + rest));
    HoldsRest(s, p + |head|, c.data, c.end + rest);
    HoldsRest(s, p + |head| + |c.data|, c.end, rest);
    HoldsEnds(s, p + |head| + |c.data| + 2, rest);
    HeadTrims(c);
    HeadEnds(s, p, text);
    DecodeHead(s, p, p + |head|, |c.data|);
    if c.data != [] {
      WholeChunk(s, p + |head|, |c.data|);
    }
  }

  lemma {:induction false} DecodeBody(s: bytes, p: nat, cs: seq<Chunk>, rest: bytes)
    requires GoodBody(cs) && Holds(s, p, ChunksText(cs) + rest)
    ensures Decode(s, p) == Decoded(DataOf(cs), Ended(p + |ChunksText(cs)|))
    decreases |cs|
  {
    hide Decode, Holds, ChunkText, GoodChunk;
    var c, more := cs[0], ChunksText(cs[1..]) + rest;
    assert ChunksText(cs) + rest == ChunkText(c) + more;
    DecodeSpelled(s, p, c, more);
    if |cs| == 1 {
      assert cs[1..] == [];
    } else {
      DecodeBody(s, p + |ChunkText(c)|, cs[1..], rest);
    }
  }

  /** A header that spells no number in range is an error, and only such a one is. */
  lemma BadHeadIff(s: bytes, p: nat, head: bytes)
    requires p + |head| < |s| && LF !in head && Text(s, p, p + |head| + 1) == head + [LF]
    ensures Decode(s, p) == Decoded([], Failed(InvalidData)) <==>
            forall n: nat :: Spells(Trim(head + [LF]), n, Hex) ==> n > U64_MAX
  {
    hide Spells, ParseUnsigned, Trim;
    HeadEnds(s, p, head);
    var text := Trim(head + [LF]);
    forall n: nat
      ensures ParseUnsigned(text, Hex) == Some(n) <==> n <= U64_MAX && Spells(text, n, Hex)
    {
      ParseIff(text, n, Hex);
    }
  }

  // ------------------------------------------------------------------
  // A body in capital digits
  // ------------------------------------------------------------------

  const CAPITAL_BODY: seq<Chunk> :=
    [Chunk([], Ascii("A"), [CR], Ascii("0123456789"), CRLF), Chunk([], Ascii("0"), [CR], [], CRLF)]

  lemma CapitalSpells()
    ensures Spells(Ascii("A"), 10, Hex) && Spells(Ascii("0"), 0, Hex)
    ensures Spells(Ascii("+00a"), 10, Hex)
  {
    DigitsPrinted(10);
    DigitsPrinted(0);
    assert Ascii("A")[..0] == Zeros(0) && Ascii("A")[0..] == Ascii("A") && EqIgnoreCase(Ascii("A"), Print(10, Hex));
    assert Ascii("0")[..0] == Zeros(0) && Ascii("0")[0..] == Ascii("0") && EqIgnoreCase(Ascii("0"), Print(0, Hex));
    var t := Ascii("+00a")[1..];
    assert t[..2] == Zeros(2) && t[2..] == [97] && EqIgnoreCase([97], Print(10, Hex));
  }

  lemma CapitalBody()
    ensures GoodBody(CAPITAL_BODY) && DataOf(CAPITAL_BODY) == Ascii("0123456789")
    ensures ChunksText(CAPITAL_BODY) == Ascii("A") + CRLF + Ascii("0123456789") + CRLF + Ascii("0") + CRLF + CRLF
  {
    hide Spells;
    CapitalSpells();
    var cs := CAPITAL_BODY;
    assert cs[1..][1..] == [] && ChunksText([]) == [];
    assert DataOf(cs[1..]) == [] + DataOf([]) == [];
    assert ChunkText(cs[0]) == Ascii("A") + CRLF + Ascii("0123456789") + CRLF;
    assert ChunkText(cs[1]) == Ascii("0") + CRLF + CRLF;
    assert ChunksText(cs[1..]) == ChunkText(cs[1]);
  }

  // ------------------------------------------------------------------
  // The reader
  // ------------------------------------------------------------------

  /** Reading such a body, through any buffers, gives its data and leaves what stands behind it. */
  method ReadLaidOut(body: bytes, ghost cs: seq<Chunk>, ghost rest: bytes) returns (out: bytes, r: Result<(), IoError>, end: nat)
    requires GoodBody(cs) && body == ChunksText(cs) + rest && |body| <= I64_MAX
    ensures r.Ok? && out == DataOf(cs) && end == |ChunksText(cs)|
  {
    hide Decode, ChunkedReader.Valid, GoodBody, ChunksText;
    HoldsAll(body);
    DecodeBody(body, 0, cs, rest);
    var stream := new TrackedReader(body);
    var reader := new ChunkedReader(stream);
    out, r := reader.ReadToEnd(Decode(body, 0));
    end := stream.pos;
  }


  /** A chunk as it is written: its length in small digits, and both parts on lines of their own. */
  lemma TenIsWritten()
    ensures EncodeChunk(Ascii("0123456789")) == Ascii("a") + CRLF + Ascii("0123456789") + CRLF
  {
    DigitsPrinted(10);
    assert Print(10, Hex) == Ascii("a");
  }
}

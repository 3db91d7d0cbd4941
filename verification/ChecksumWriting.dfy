/**
 Writing a record with checksums (fastwarc-rs/src/warc/record.rs): the record is
 frozen, its block and payload digests are set, and it is written from the start.
 */
module ChecksumWriting {
  import opened Wrappers
  import opened ByteStrings
  import opened Readers
  import opened HeaderScan
  import opened HeaderEdits
  import opened HeaderCache
  import opened HeaderMaps
  import opened Numerals
  import opened RecordHead
  import opened Records

  const BLOCK_DIGEST := Ascii("WARC-Block-Digest")
  const PAYLOAD_DIGEST := Ascii("WARC-Payload-Digest")

  /** The printed digest of a text; the hash function itself is not modelled. */
  type Hash = bytes -> bytes

  /** A record that shows its HTTP block apart from the payload. */
  predicate ShowsHttp(rec: WarcRecord)
    reads rec
  {
    rec.httpParsed && rec.httpHeaders != null
  }

  /** The header map after its digests were set; only a parsed HTTP block makes for a payload digest. */
  function WithDigests(m: MapState, payload: Option<bytes>, block: bytes): (r: MapState) {
    var m' := if payload.Some? then ApplyOp(m, Set(PAYLOAD_DIGEST, payload.value)) else m;
    ApplyOp(m', Set(BLOCK_DIGEST, block))
  }

  lemma DigestKeys()
    ensures Sanitize(BLOCK_DIGEST, true) == BLOCK_DIGEST && Sanitize(PAYLOAD_DIGEST, true) == PAYLOAD_DIGEST
    ensures !EqIgnoreCase(BLOCK_DIGEST, PAYLOAD_DIGEST)
  {
    hide Sanitize, Lower;
    SanitizesToItself(BLOCK_DIGEST, true);
    SanitizesToItself(PAYLOAD_DIGEST, true);
    assert |BLOCK_DIGEST| != |PAYLOAD_DIGEST|;
  }

  /** Afterwards each digest is there once, a payload digest that was not set is as before, and so is every other field. */
  lemma DigestsAreSet(m: MapState, payload: Option<bytes>, block: bytes, other: bytes)
    ensures var hs := WithDigests(m, payload, block).block.headers;
            && GetAll(hs, BLOCK_DIGEST) == [Sanitize(block, false)]
            && GetAll(hs, PAYLOAD_DIGEST) ==
               (if payload.Some? then [Sanitize(payload.value, false)] else GetAll(m.block.headers, PAYLOAD_DIGEST))
            && (!EqIgnoreCase(other, BLOCK_DIGEST) && !EqIgnoreCase(other, PAYLOAD_DIGEST) ==>
                  GetAll(hs, other) == GetAll(m.block.headers, other))
  {
    hide Sanitize, SetField, GetAll, Lower;
    DigestKeys();
    var m' := if payload.Some? then ApplyOp(m, Set(PAYLOAD_DIGEST, payload.value)) else m;
    if payload.Some? {
      SetThenGet(m.block.headers, PAYLOAD_DIGEST, payload.value, other);
    }
    SetThenGet(m'.block.headers, BLOCK_DIGEST, block, PAYLOAD_DIGEST);
    SetThenGet(m'.block.headers, BLOCK_DIGEST, block, other);
  }

  /** The payload from where the reader's window starts, what has been read of it included. */
  ghost function FromStart(rec: WarcRecord): bytes
    requires rec.Valid() && !rec.reader.Detached?
    reads rec, rec.Repr()
  {
    var p := rec.PayloadReader();
    var start := p.inner.pos - p.pos;
    Text(p.inner.data, start, Min(|p.inner.data|, start + p.limit))
  }

  /** What is written of the payload: all of it if it was frozen before, else what is left; with no chunk size, nothing. */
  ghost function Copied(rec: WarcRecord, chunkSize: nat): bytes
    requires rec.Valid() && !rec.reader.Detached?
    reads rec, rec.Repr()
  {
    if chunkSize == 0 then [] else if rec.reader.Original? then rec.Unread(1) else FromStart(rec)
  }

  lemma WindowText(p: LimitedReader)
    requires p.Valid() && p.pos == 0
    ensures Text(p.inner.data, p.inner.pos, p.End()) == Text(p.inner.data, p.inner.pos, Min(|p.inner.data|, p.inner.pos + p.limit))
  {
  }

  /** Reads what is left of a frozen payload and goes back to its start. */
  method ReadAndRewind(rec: WarcRecord) returns (rest: bytes)
    requires rec.Valid() && rec.reader.Frozen?
    modifies rec.PayloadFrame()
    ensures rec.Valid() && rest == old(rec.Unread(1))
    ensures rec.PayloadReader().pos == 0 && rec.Unread(1) == old(FromStart(rec))
    ensures forall e :: old(rec.Anchored(e)) ==> rec.Anchored(e)
  {
    hide HeaderMap.Content, HeaderMap.Valid, HeaderMap.Abs, Text, LimitedReader.End;
    var p := rec.PayloadReader();
    rest := p.ReadToEnd();
    var start := p.Seek(Start(0));
    WindowText(p);
  }

  /** The header map with the digests of an HTTP block and a payload. */
  function Digested(m: MapState, showsHttp: bool, sha1: Hash, http: bytes, rest: bytes): (r: MapState) {
    WithDigests(m, if showsHttp then Some(sha1(rest)) else None, sha1(http + rest))
  }

  /** Making the length right leaves other fields alone. */
  lemma LengthLeavesOthers(m: MapState, length: nat, key: bytes)
    requires Sanitize(CONTENT_LENGTH, true) == CONTENT_LENGTH && !EqIgnoreCase(key, CONTENT_LENGTH)
    ensures GetAll(WithLength(m, length).block.headers, key) == GetAll(m.block.headers, key)
  {
    hide Sanitize, SetField, GetAll, Lower, Print, GetFirst;
    SetThenGet(m.block.headers, CONTENT_LENGTH, Print(length, Dec), key);
  }

  lemma LengthKey()
    ensures Sanitize(CONTENT_LENGTH, true) == CONTENT_LENGTH
    ensures !EqIgnoreCase(BLOCK_DIGEST, CONTENT_LENGTH) && !EqIgnoreCase(PAYLOAD_DIGEST, CONTENT_LENGTH)
  {
    hide Sanitize, Lower;
    SanitizesToItself(CONTENT_LENGTH, true);
    assert |CONTENT_LENGTH| == 14 && |BLOCK_DIGEST| == 17 && |PAYLOAD_DIGEST| == 19;
  }

  /** The record that is written names the hash of its HTTP block and payload together, under this key. */
  lemma BlockDigestShows(m: MapState, showsHttp: bool, sha1: Hash, http: bytes, payload: bytes, length: nat, key: bytes)
    requires key == Ascii("WARC-Block-Digest")
    ensures var hs := WithLength(Digested(m, showsHttp, sha1, http, payload), length).block.headers;
            GetAll(hs, key) == [Sanitize(sha1(http + payload), false)]
  {
    hide Sanitize, GetAll, Lower, WithDigests, WithLength;
    var digest := if showsHttp then Some(sha1(payload)) else None;
    LengthKey();
    DigestsAreSet(m, digest, sha1(http + payload), []);
    LengthLeavesOthers(Digested(m, showsHttp, sha1, http, payload), length, BLOCK_DIGEST);
  }

  /** If it shows an HTTP block, it names the hash of the payload behind that under this key, else what it named before. */
  lemma PayloadDigestShows(m: MapState, showsHttp: bool, sha1: Hash, http: bytes, payload: bytes, length: nat, key: bytes)
    requires key == Ascii("WARC-Payload-Digest")
    ensures var hs := WithLength(Digested(m, showsHttp, sha1, http, payload), length).block.headers;
            GetAll(hs, key) == if showsHttp then [Sanitize(sha1(payload), false)] else GetAll(m.block.headers, key)
  {
    hide Sanitize, GetAll, Lower, WithDigests, WithLength;
    var digest := if showsHttp then Some(sha1(payload)) else None;
    LengthKey();
    DigestsAreSet(m, digest, sha1(http + payload), []);
    LengthLeavesOthers(Digested(m, showsHttp, sha1, http, payload), length, PAYLOAD_DIGEST);
  }

  /** Sets the digests of a record: that of the payload `rest`, if its HTTP block was parsed off, and that of the block. */
  method SetDigests(rec: WarcRecord, sha1: Hash, rest: bytes)
    requires rec.Valid()
    modifies rec.headers
    ensures rec.Valid() && rec.HttpOutput() == old(rec.HttpOutput())
    ensures rec.headers.Abs() == Digested(old(rec.headers.Abs()), ShowsHttp(rec), sha1, rec.HttpOutput(), rest)
    ensures forall e :: old(rec.Anchored(e)) ==> rec.Anchored(e)
  {
    hide HeaderMap.Content, HeaderMap.Valid, HeaderMap.Abs, HeaderMap.Output, TrackedReader.Valid, ApplyOp;
    var http: bytes, n := [], 0;
    if rec.httpParsed && rec.httpHeaders != null {
      http, n := rec.httpHeaders.Write([]);
      rec.headers.SetBytes(PAYLOAD_DIGEST, sha1(rest));
    }
    assert http == rec.HttpOutput();
    rec.headers.SetBytes(BLOCK_DIGEST, sha1(http + rest));
  }

  /** Freezing a record takes over what is left of its payload. */
  method FreezePayload(rec: WarcRecord) returns (r: Result<(), IoError>)
    requires rec.Valid()
    modifies rec.Repr()
    ensures rec.Valid() && fresh(rec.Repr() - old(rec.Repr()))
    ensures r.Err? <==> old(rec.reader.Detached?)
    ensures rec.HttpOutput() == old(rec.HttpOutput()) && ShowsHttp(rec) == old(ShowsHttp(rec))
    ensures rec.headers.Abs() == old(rec.headers.Abs())
    ensures r.Ok? ==>
              && rec.reader.Frozen? && rec.Unread(1) == old(rec.Unread(1))
              && FromStart(rec) == if old(rec.reader.Original?) then old(rec.Unread(1)) else old(FromStart(rec))
    ensures forall e :: old(rec.Anchored(e)) ==> rec.Anchored(e)
  {
    hide HeaderMap.Content, HeaderMap.Valid, HeaderMap.Abs, HeaderMap.Output, Text, TrackedReader.Valid;
    if !rec.reader.Detached? {
      WholeText(rec.Unread(1));
    }
    r := rec.Freeze();
  }

  /** Freezes the record and sets the digests of what is left of it; the reader then stands at the start of the payload. */
  method AddDigests(rec: WarcRecord, sha1: Hash) returns (r: Result<(), IoError>)
    requires rec.Valid()
    modifies rec.Repr()
    ensures rec.Valid() && fresh(rec.Repr() - old(rec.Repr()))
    ensures r.Err? <==> old(rec.reader.Detached?)
    ensures r.Ok? ==>
              && rec.reader.Frozen? && rec.PayloadReader().pos == 0
              && rec.HttpOutput() == old(rec.HttpOutput()) && ShowsHttp(rec) == old(ShowsHttp(rec))
              && rec.headers.Abs() ==
                 Digested(old(rec.headers.Abs()), ShowsHttp(rec), sha1, rec.HttpOutput(), old(rec.Unread(1)))
              && rec.Unread(1) == old(Copied(rec, 1))
    ensures forall e :: old(rec.Anchored(e)) ==> rec.Anchored(e)
  {
    hide HeaderMap.Content, HeaderMap.Valid, HeaderMap.Abs, HeaderMap.Output, Text, TrackedReader.Valid, Digested;
    r := FreezePayload(rec);
    if r.Ok? {
      var rest := ReadAndRewind(rec);
      SetDigests(rec, sha1, rest);
    }
  }

  /** What is left of a window is all of it exactly when nothing has been read of it. */
  lemma UnreadIsAllIff(rec: WarcRecord)
    requires rec.Valid() && !rec.reader.Detached?
    ensures var p := rec.PayloadReader();
            rec.Unread(1) == FromStart(rec) <==> p.pos == 0 || p.inner.pos - p.pos >= |p.inner.data|
  {
    hide HeaderMap.Valid, TrackedReader.Valid;
    var p := rec.PayloadReader();
    if p.pos == 0 {
      WindowText(p);
    } else {
      assert |rec.Unread(1)| < |FromStart(rec)| || p.inner.pos - p.pos >= |p.inner.data|;
    }
  }

  lemma CopiedInBlocks(rec: WarcRecord, chunkSize: nat)
    requires rec.Valid()
    ensures !rec.reader.Detached? ==> Copied(rec, chunkSize) == if chunkSize == 0 then [] else Copied(rec, 1)
  {
  }

  lemma OwnsFrame(rec: WarcRecord)
    ensures rec in rec.Repr() && rec.headers in rec.Repr() && rec.PayloadFrame() <= rec.Repr()
  {
  }

  /**
   The digests are those of what is written exactly in these cases: nothing is
   written and nothing is left, or something is, and no part of a frozen payload
   had been read before.
   */
  lemma DigestsCoverIff(rec: WarcRecord, chunkSize: nat)
    requires rec.Valid() && !rec.reader.Detached?
    ensures var p := rec.PayloadReader();
            rec.Unread(1) == Copied(rec, chunkSize) <==>
            if chunkSize == 0 then p.inner.pos == p.End()
            else rec.reader.Original? || p.pos == 0 || p.inner.pos - p.pos >= |p.inner.data|
  {
    UnreadIsAllIff(rec);
  }

  /** Sets the digests and writes the record with a given block length. */
  method WriteDigested(rec: WarcRecord, out: bytes, chunkSize: nat, sha1: Hash, length: nat)
    returns (r: Result<bytes, IoError>, count: nat)
    requires rec.Valid()
    modifies rec.Repr()
    ensures rec.Valid() && (r.Err? <==> old(rec.reader.Detached?))
    ensures r.Ok? ==>
              && rec.headers.Abs() ==
                 WithLength(Digested(old(rec.headers.Abs()), old(ShowsHttp(rec)), sha1, old(rec.HttpOutput()),
                                     old(rec.Unread(1))),
                            length)
              && count == |r.value| - |out|
              && r.value == out + rec.headers.Output() + old(rec.HttpOutput())
                            + old(Copied(rec, chunkSize)) + RECORD_END
    ensures forall e :: old(rec.Anchored(e)) ==> rec.Anchored(e)
  {
    hide HeaderMap.Content, HeaderMap.Valid, HeaderMap.Abs, HeaderMap.Output, Text, TrackedReader.Valid, Digested,
      WithLength, WarcRecord.HttpOutput, WarcRecord.Unread, WarcRecord.Anchored, Copied, ShowsHttp, LimitedReader.Valid,
      WarcRecord.PayloadFrame, WarcRecord.Repr;
    CopiedInBlocks(rec, chunkSize);
    var added := AddDigests(rec, sha1);
    if added.Err? {
      return Err(added.error), 0;
    }
    OwnsFrame(rec);
    rec.UnreadInBlocks(chunkSize);
    var written;
    written, count := rec.WriteParts(out, chunkSize, length);
    return Ok(written), count;
  }

  /** Writes a record with checksums: the digests of what is left of the payload, and what is copied of it. */
  method WriteChecksummed(rec: WarcRecord, out: bytes, chunkSize: nat, sha1: Hash)
    returns (r: Result<bytes, IoError>, count: nat)
    requires rec.Valid()
    modifies rec.Repr()
    ensures rec.Valid() && (r.Err? <==> old(rec.reader.Detached?))
    ensures r.Ok? ==>
              && rec.headers.Abs() ==
                 WithLength(Digested(old(rec.headers.Abs()), old(ShowsHttp(rec)), sha1, old(rec.HttpOutput()),
                                     old(rec.Unread(1))),
                            old(rec.contentLength) + |old(rec.HttpOutput())|)
              && count == |r.value| - |out|
              && r.value == out + rec.headers.Output() + old(rec.HttpOutput())
                            + old(Copied(rec, chunkSize)) + RECORD_END
    ensures forall e :: old(rec.Anchored(e)) ==> rec.Anchored(e)
  {
    hide HeaderMap.Content, HeaderMap.Valid, HeaderMap.Abs, HeaderMap.Output, Text, TrackedReader.Valid, Digested,
      WithLength, WarcRecord.HttpOutput, WarcRecord.Unread, WarcRecord.Anchored, Copied, ShowsHttp, LimitedReader.Valid,
      WarcRecord.PayloadFrame;
    var httpLen := rec.HttpOutputLength();
    r, count := WriteDigested(rec, out, chunkSize, sha1, rec.contentLength + httpLen);
  }
}

/**
 Reading a stream of compressed frames (fastwarc-rs/src/stream_io/zstd.rs) with a
 decoder that stops at the end of each frame. What a decoder does inside a frame
 is left open.
 */
module ZstdFrames {
  import opened Wrappers
  import opened ByteStrings

  /** A frame: how long it is when compressed, and what it decodes to. */
  datatype Frame = Frame(size: nat, payload: bytes)

  predicate GoodFrames(frames: seq<Frame>) {
    forall i :: 0 <= i < |frames| ==> frames[i].size > 0
  }

  function Payloads(frames: seq<Frame>): (r: bytes) {
    if frames == [] then [] else frames[0].payload + Payloads(frames[1..])
  }

  function SizeOf(frames: seq<Frame>): (n: nat) {
    if frames == [] then 0 else frames[0].size + SizeOf(frames[1..])
  }

  /** Where the k-th frame starts in the compressed stream. */
  function FrameStart(frames: seq<Frame>, k: nat): (n: nat)
    requires k <= |frames|
  {
    SizeOf(frames[..k])
  }

  lemma {:induction false} SizeJoins(a: seq<Frame>, b: seq<Frame>)
    ensures SizeOf(a + b) == SizeOf(a) + SizeOf(b)
    ensures |Payloads(a + b)| == |Payloads(a)| + |Payloads(b)|
  {
    if a == [] {
      assert a + b == b;
    } else {
      assert (a + b)[1..] == a[1..] + b;
      SizeJoins(a[1..], b);
    }
  }

  /** A frame starts where the one before it ends. */
  lemma FrameStartNext(frames: seq<Frame>, k: nat)
    requires k < |frames|
    ensures FrameStart(frames, k + 1) == FrameStart(frames, k) + frames[k].size
    ensures |Payloads(frames[..k + 1])| == |Payloads(frames[..k])| + |frames[k].payload|
    ensures Payloads(frames[k..]) == frames[k].payload + Payloads(frames[k + 1..])
  {
    assert frames[..k + 1] == frames[..k] + [frames[k]];
    SizeJoins(frames[..k], [frames[k]]);
    assert Payloads([frames[k]]) == frames[k].payload + [];
    assert frames[k..][1..] == frames[k + 1..];
  }

  /** What is ahead where a frame starts. */
  lemma AtFrameStart(frames: seq<Frame>, k: nat)
    requires k <= |frames|
    ensures Payloads(frames[k..]) == if k < |frames| then frames[k].payload[0..] + Payloads(frames[k + 1..]) else []
  {
    if k < |frames| {
      FrameStartNext(frames, k);
      assert frames[k].payload[0..] == frames[k].payload;
    }
  }

  lemma NothingLeft(payload: bytes, rest: bytes)
    ensures payload[|payload|..] + rest == rest
  {
  }

  lemma {:induction false} FrameStartWithin(frames: seq<Frame>, k: nat)
    requires GoodFrames(frames) && k <= |frames|
    ensures FrameStart(frames, k) <= SizeOf(frames) && (FrameStart(frames, k) == SizeOf(frames) <==> k == |frames|)
  {
    SizeJoins(frames[..k], frames[k..]);
    assert frames == frames[..k] + frames[k..];
    if k < |frames| {
      assert frames[k..][0] == frames[k];
    }
  }

  class ZstdReader {
    const frames: seq<Frame>
    // The frame the decoder is at, what it has decoded of it, and what of that is still buffered.
    var frame: nat
    var decoded: nat
    var avail: nat
    // How far the decoder has read the compressed stream.
    var innerPos: nat
    var frameStartPos: nat
    var streamPos: nat
    // The frame that stream positions count from.
    ghost var base: nat

    ghost predicate Valid()
      reads this
    {
      && GoodFrames(frames) && base <= frame <= |frames|
      && frameStartPos == FrameStart(frames, frame)
      && (if frame < |frames| then
            && avail <= decoded <= |frames[frame].payload|
            && frameStartPos <= innerPos <= frameStartPos + frames[frame].size
          else avail == decoded == 0 && innerPos == frameStartPos)
      && |Payloads(frames[..base])| + streamPos == |Payloads(frames[..frame])| + (decoded - avail)
    }

    /** The payload that is still to come. */
    ghost function Left(): bytes
      requires Valid()
      reads this
    {
      if frame < |frames| then frames[frame].payload[decoded - avail..] + Payloads(frames[frame + 1..]) else []
    }

    constructor (frames: seq<Frame>)
      requires GoodFrames(frames)
      ensures Valid() && this.frames == frames && Left() == Payloads(frames) && streamPos == 0
    {
      this.frames := frames;
      frame, decoded, avail, innerPos, frameStartPos, streamPos, base := 0, 0, 0, 0, 0, 0, 0;
      new;
      if |frames| > 0 {
        FrameStartNext(frames, 0);
        assert frames[0..] == frames;
      }
    }

    /** The buffer behind the decoder; it stays empty once the frame has ended. */
    method DecoderFill() returns (w: bytes)
      requires Valid()
      modifies this`decoded, this`avail, this`innerPos
      ensures Valid() && Left() == old(Left()) && |w| == avail && innerPos >= old(innerPos)
      ensures frame < |frames| ==> w == frames[frame].payload[decoded - avail..decoded]
      ensures |w| == 0 ==>
                if frame < |frames| then decoded == |frames[frame].payload| && innerPos == frameStartPos + frames[frame].size
                else innerPos == frameStartPos
    {
      hide Payloads, SizeOf, FrameStart;
      if frame == |frames| {
        return [];
      }
      var f := frames[frame];
      if avail == 0 {
        if decoded < |f.payload| {
          var n: nat :| 0 < n <= |f.payload| - decoded;
          var p: nat :| innerPos <= p <= frameStartPos + f.size;
          decoded, avail, innerPos := decoded + n, n, p;
        } else {
          innerPos := frameStartPos + f.size;
        }
      }
      return f.payload[decoded - avail..decoded];
    }

    /** Starts a decoder at the next frame. */
    method ResetDecoder()
      requires Valid() && frame < |frames| && avail == 0 && decoded == |frames[frame].payload|
      requires innerPos == frameStartPos + frames[frame].size
      modifies this`frame, this`decoded, this`frameStartPos
      ensures Valid() && frame == old(frame) + 1 && Left() == old(Left())
    {
      hide Payloads, SizeOf, FrameStart, GoodFrames;
      FrameStartNext(frames, frame);
      AtFrameStart(frames, frame + 1);
      NothingLeft(frames[frame].payload, Payloads(frames[frame + 1..]));
      frameStartPos := innerPos;
      frame, decoded := frame + 1, 0;
    }

    /** Moves on over frames that have ended, empty ones included, as long as there is more input. */
    method EnsureFrameData()
      requires Valid()
      modifies this`frame, this`decoded, this`avail, this`innerPos, this`frameStartPos
      ensures Valid() && Left() == old(Left())
      ensures avail == 0 ==> Left() == [] && innerPos == SizeOf(frames)
    {
      hide Payloads, SizeOf, FrameStart;
      while true
        invariant Valid() && Left() == old(Left())
        decreases |frames| - frame
      {
        var buf := DecoderFill();
        if |buf| > 0 {
          return;
        }
        ghost var next := if frame < |frames| then frame + 1 else frame;
        if frame < |frames| {
          FrameStartNext(frames, frame);
        }
        FrameStartWithin(frames, next);
        var hasMoreInput := innerPos < SizeOf(frames);
        if hasMoreInput {
          ResetDecoder();
        } else {
          AllFramesDone(frames, next);
          return;
        }
      }
    }

    /** The unread part of the buffer; it is empty only when the compressed stream is used up. */
    method FillBuf() returns (w: bytes)
      requires Valid()
      modifies this`frame, this`decoded, this`avail, this`innerPos, this`frameStartPos
      ensures Valid() && Left() == old(Left()) && |w| == avail && w <= Left()
      ensures |w| == 0 ==> Left() == [] && innerPos == SizeOf(frames)
      ensures |w| > 0 ==> frame < |frames| && frameStartPos == FrameStart(frames, frame) && Holds(frame)
    {
      hide Payloads, SizeOf, FrameStart;
      EnsureFrameData();
      w := DecoderFill();
      if frame < |frames| {
        FrameStartNext(frames, frame);
        FrameStartWithin(frames, frame + 1);
      }
    }

    /** The next byte of the payload is one of the k-th frame. */
    ghost predicate Holds(k: nat)
      requires Valid() && k < |frames|
      reads this
    {
      var p := |Payloads(frames[..base])| + streamPos;
      |Payloads(frames[..k])| <= p < |Payloads(frames[..k])| + |frames[k].payload|
    }

    method Consume(amount: nat)
      requires Valid() && amount <= avail
      modifies this`avail, this`streamPos
      ensures Valid() && amount <= |old(Left())| && Left() == old(Left())[amount..] && streamPos == old(streamPos) + amount
    {
      hide Payloads, SizeOf, FrameStart;
      avail := avail - amount;
      streamPos := streamPos + amount;
    }

    method Read(len: nat) returns (out: bytes)
      requires Valid()
      modifies this
      ensures Valid() && |out| <= len && out + Left() == old(Left()) && base == old(base)
      ensures streamPos == old(streamPos) + |out| && (|out| == 0 <==> len == 0 || old(Left()) == [])
    {
      hide Payloads, SizeOf, FrameStart, ZstdReader.Valid, ZstdReader.Left;
      var w := FillBuf();
      ghost var all := Left();
      var n := Min(|w|, len);
      assert all == all[..n] + all[n..] && w[..n] == all[..n];
      Consume(n);
      return w[..n];
    }

    /** Reading to the end yields the payloads of all frames that are left. */
    method ReadToEnd() returns (out: bytes)
      requires Valid()
      modifies this
      ensures Valid() && out == old(Left()) && Left() == [] && streamPos == old(streamPos) + |out|
    {
      hide Payloads, SizeOf, FrameStart, ZstdReader.Valid, ZstdReader.Left;
      out := [];
      while true
        invariant Valid() && out + Left() == old(Left()) && streamPos == old(streamPos) + |out|
        decreases |Left()|
      {
        var size: nat :| size > 0;
        ghost var before := Left();
        var part := Read(size);
        if |part| == 0 {
          assert Left() == before;
          return;
        }
        assert out + part + Left() == out + before;
        out := out + part;
      }
    }

    /** Seeking the compressed stream to the start of a frame makes that frame come next. */
    method InnerSeek(pos: nat, ghost k: nat)
      requires Valid() && k <= |frames| && pos == FrameStart(frames, k)
      modifies this
      ensures Valid() && Left() == Payloads(frames[k..]) && streamPos == 0 && base == k && frameStartPos == pos
    {
      hide Payloads, SizeOf, FrameStart, GoodFrames;
      AtFrameStart(frames, k);
      innerPos, frameStartPos := pos, pos;
      decoded, avail, streamPos := 0, 0, 0;
      frame, base := FrameAt(pos, k), k;
    }

    /** The frame that starts at a position. */
    function FrameAt(pos: nat, ghost k: nat): (r: nat)
      requires k <= |frames| && pos == FrameStart(frames, k) && GoodFrames(frames)
      ensures r == k
    {
      FrameFrom(frames, pos, 0, k)
    }
  }

  /** The number of frames that lie in front of a position. */
  function FrameFrom(frames: seq<Frame>, pos: nat, i: nat, ghost k: nat): (r: nat)
    requires i <= k <= |frames| && pos == SizeOf(frames[i..k]) && GoodFrames(frames)
    ensures r == k
    decreases k - i
  {
    SizeOfNone(frames, i, k);
    if pos == 0 then i else FrameFrom(frames, pos - frames[i].size, i + 1, k)
  }

  lemma SizeOfNone(frames: seq<Frame>, i: nat, k: nat)
    requires i <= k <= |frames| && GoodFrames(frames)
    ensures SizeOf(frames[i..k]) == 0 <==> i == k
    ensures i < k ==> SizeOf(frames[i..k]) == frames[i].size + SizeOf(frames[i + 1..k])
  {
    if i < k {
      assert frames[i..k][1..] == frames[i + 1..k] && frames[i..k][0] == frames[i];
    }
  }

  lemma AllFramesDone(frames: seq<Frame>, k: nat)
    requires GoodFrames(frames) && k <= |frames| && FrameStart(frames, k) >= SizeOf(frames)
    ensures k == |frames| && FrameStart(frames, k) == SizeOf(frames) && Payloads(frames[k..]) == []
  {
    FrameStartWithin(frames, k);
  }
}

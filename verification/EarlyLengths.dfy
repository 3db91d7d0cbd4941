/**
 Records that announce their length early (fastwarc-rs/src/warc/record.rs,
 header.rs): once, in the usual spelling, and in front of what the reader stops
 at. No edit of other fields changes that.
 */
module EarlyLengths {
  import opened Wrappers
  import opened ByteStrings
  import opened HeaderScan
  import opened HeaderEdits
  import opened HeaderCache
  import opened RecordHead

  /** The reader counts a field of this name, however it is spelled. */
  predicate Counted(key: bytes) {
    EqIgnoreCase(key, WARC_TYPE) || EqIgnoreCase(key, CONTENT_TYPE)
  }

  /** The only Content-Length is spelled as usual and has fewer than `room` counted fields in front of it. */
  predicate EarlyLength(hs: seq<Header>, room: nat) {
    && hs != [] && room > 0
    && if EqIgnoreCase(hs[0].key, CONTENT_LENGTH) then hs[0].key == CONTENT_LENGTH && GetAll(hs[1..], CONTENT_LENGTH) == []
       else EarlyLength(hs[1..], if Counted(hs[0].key) then room - 1 else room)
  }

  /** An edit of other fields, or one that sets the length in its usual spelling. */
  predicate LeavesLength(op: HeaderOp) {
    match op
    case Set(key, _) => Sanitize(key, true) == CONTENT_LENGTH || !EqIgnoreCase(Sanitize(key, true), CONTENT_LENGTH)
    case Append(key, _) => !EqIgnoreCase(Sanitize(key, true), CONTENT_LENGTH)
    case Remove(key) => !EqIgnoreCase(Sanitize(key, true), CONTENT_LENGTH)
    case SetStatus(_) => true
    case Clear => false
    case Parse(_, _, _, _, _) => false
    case BrokenParse(_, _, _, _, _) => false
  }

  /** The reader then acts on the length, and on no other. */
  lemma {:induction false} EarlyIsTaken(hs: seq<Header>, hits: nat, room: nat)
    requires EarlyLength(hs, room) && room + hits <= 3
    ensures TakesLength(hs, hits) && |GetAll(hs, CONTENT_LENGTH)| == 1
    decreases |hs|
  {
    hide TypeOf, IsHttpType, LengthOf, Lower;
    if !EqIgnoreCase(hs[0].key, CONTENT_LENGTH) {
      EarlyIsTaken(hs[1..], if TakeField(hs[0], NO_FIELDS).1 then hits + 1 else hits,
                   if Counted(hs[0].key) then room - 1 else room);
    }
  }

  lemma {:induction false} EarlyWithMoreRoom(hs: seq<Header>, room: nat, more: nat)
    requires EarlyLength(hs, room) && room <= more
    ensures EarlyLength(hs, more)
    decreases |hs|
  {
    hide Lower;
    if !EqIgnoreCase(hs[0].key, CONTENT_LENGTH) {
      var d := if Counted(hs[0].key) then 1 else 0;
      EarlyWithMoreRoom(hs[1..], room - d, more - d);
    }
  }

  lemma {:induction false} EarlyAppend(hs: seq<Header>, h: Header, room: nat)
    requires EarlyLength(hs, room) && !EqIgnoreCase(h.key, CONTENT_LENGTH)
    ensures EarlyLength(hs + [h], room)
    decreases |hs|
  {
    hide Lower;
    assert (hs + [h])[1..] == hs[1..] + [h];
    if EqIgnoreCase(hs[0].key, CONTENT_LENGTH) {
      GetAllConcat(hs[1..], [h], CONTENT_LENGTH);
    } else {
      EarlyAppend(hs[1..], h, if Counted(hs[0].key) then room - 1 else room);
    }
  }

  lemma {:induction false} EarlyWithout(hs: seq<Header>, key: bytes, room: nat)
    requires EarlyLength(hs, room) && !EqIgnoreCase(key, CONTENT_LENGTH)
    ensures EarlyLength(Without(hs, key), room)
    decreases |hs|
  {
    hide Lower;
    var rest := Without(hs[1..], key);
    assert ([hs[0]] + rest)[1..] == rest && [] + rest == rest;
    if EqIgnoreCase(hs[0].key, CONTENT_LENGTH) {
      RemoveThenGet(hs[1..], key, CONTENT_LENGTH);
    } else {
      var left := if Counted(hs[0].key) then room - 1 else room;
      EarlyWithout(hs[1..], key, left);
      EarlyWithMoreRoom(rest, left, room);
    }
  }

  /** Overwriting the field itself keeps it where it is, overwriting others does not move it back. */
  lemma {:induction false} EarlyOverwrite(hs: seq<Header>, h: Header, found: bool, room: nat)
    requires EarlyLength(hs, room) && if h.key == CONTENT_LENGTH then !found else !EqIgnoreCase(h.key, CONTENT_LENGTH)
    ensures var r := Overwrite(hs, Lower(h.key), h, found); EarlyLength(r.0, room) && (h.key == CONTENT_LENGTH ==> r.1)
    decreases |hs|
  {
    hide Lower;
    var same := EqIgnoreCase(hs[0].key, h.key);
    var rest := Overwrite(hs[1..], Lower(h.key), h, found || same).0;
    assert ([hs[0]] + rest)[1..] == rest && ([h] + rest)[1..] == rest && [] + rest == rest;
    OverwriteGets(hs[1..], h, found || same, CONTENT_LENGTH);
    if !EqIgnoreCase(hs[0].key, CONTENT_LENGTH) {
      var left := if Counted(hs[0].key) then room - 1 else room;
      EarlyOverwrite(hs[1..], h, found || same, left);
      EarlyWithMoreRoom(rest, left, room);
    }
  }

  /** No such edit takes the length out of the reader's sight. */
  lemma EarlyAfter(m: MapState, op: HeaderOp, room: nat)
    requires EarlyLength(m.block.headers, room) && LeavesLength(op) && OpFits(op)
    ensures EarlyLength(ApplyOp(m, op).block.headers, room)
  {
    hide Sanitize, Lower, EarlyLength;
    var hs := m.block.headers;
    match op
    case Set(key, value) =>
      LowerSanitize(key);
      EarlyOverwrite(hs, SanitizedField(key, value), false, room);
      var r := Overwrite(hs, Lower(Sanitize(key, true)), SanitizedField(key, value), false);
      if !r.1 {
        EarlyAppend(r.0, SanitizedField(key, value), room);
      }
    case Append(key, value) =>
      EarlyAppend(hs, SanitizedField(key, value), room);
    case Remove(key) =>
      EarlyWithout(hs, Sanitize(key, true), room);
    case SetStatus(_) =>
  }

  lemma {:induction false} EarlyAfterRun(m: MapState, ops: seq<HeaderOp>, room: nat)
    requires EarlyLength(m.block.headers, room) && SafeRun(m, ops) && forall i :: 0 <= i < |ops| ==> LeavesLength(ops[i])
    ensures EarlyLength(RunOps(m, ops).block.headers, room)
    decreases |ops|
  {
    hide LeavesLength, EarlyLength, ApplyOp;
    if ops != [] {
      EarlyAfter(m, ops[0], room);
      EarlyAfterRun(ApplyOp(m, ops[0]), ops[1..], room);
    }
  }
}

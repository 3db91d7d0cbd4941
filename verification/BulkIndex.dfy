/**
 Flushing a buffer of documents to a bulk index, with retries
 (resiliparse-py/resiliparse/beam/elasticsearch.py, `_flush_buffer`): every
 document is accounted for.
 */
module BulkIndex {

  datatype Doc = Doc(id: int, content: int)

  datatype Reply = Indexed | Refused(status: nat)

  /**
   One bulk request: replies in the order of the documents. A transport error
   may cut them short; without one there is a reply for each document.
   */
  datatype Attempt = Attempt(replies: seq<Reply>, raised: bool)

  /** The index, as the flush sees it: how it answers the n-th request for given documents. */
  type Index = (nat, seq<Doc>) -> Attempt

  ghost predicate InOrder(index: Index) {
    forall n: nat, docs: seq<Doc> ::
      var a := index(n, docs);
      if a.raised then |a.replies| <= |docs| else |a.replies| == |docs|
  }

  /** A refused document is dropped when trying again has no point. */
  predicate Dropped(r: Reply, ignore400: bool) {
    r == Refused(400) && ignore400
  }

  function Successes(docs: seq<Doc>, replies: seq<Reply>): (r: seq<Doc>)
    requires |replies| <= |docs|
  {
    if replies == [] then []
    else (if replies[0].Indexed? then [docs[0]] else []) + Successes(docs[1..], replies[1..])
  }

  function Drops(docs: seq<Doc>, replies: seq<Reply>, ignore400: bool): (r: seq<Doc>)
    requires |replies| <= |docs|
  {
    if replies == [] then []
    else (if Dropped(replies[0], ignore400) then [docs[0]] else []) + Drops(docs[1..], replies[1..], ignore400)
  }

  function Retries(docs: seq<Doc>, replies: seq<Reply>, ignore400: bool): (r: seq<Doc>)
    requires |replies| <= |docs|
  {
    if replies == [] then []
    else
      (if replies[0].Refused? && !Dropped(replies[0], ignore400) then [docs[0]] else [])
      + Retries(docs[1..], replies[1..], ignore400)
  }

  /** How often a document occurs. */
  function Count(docs: seq<Doc>, d: Doc): (n: nat) {
    multiset(docs)[d]
  }

  lemma CountJoins(a: seq<Doc>, b: seq<Doc>, d: Doc)
    ensures Count(a + b, d) == Count(a, d) + Count(b, d) && Count([], d) == 0
  {
  }

  /** A request without transport error sorts each document into one of the three. */
  lemma {:induction false} RequestConserves(docs: seq<Doc>, replies: seq<Reply>, ignore400: bool, d: Doc)
    requires |replies| == |docs|
    ensures Count(docs, d) == Count(Successes(docs, replies), d) + Count(Drops(docs, replies, ignore400), d)
                              + Count(Retries(docs, replies, ignore400), d)
  {
    hide Count;
    CountJoins([], [], d);
    if docs != [] {
      RequestConserves(docs[1..], replies[1..], ignore400, d);
      assert docs == [docs[0]] + docs[1..];
      CountJoins([docs[0]], docs[1..], d);
      CountJoins([docs[0]], Successes(docs[1..], replies[1..]), d);
      CountJoins([docs[0]], Drops(docs[1..], replies[1..], ignore400), d);
      CountJoins([docs[0]], Retries(docs[1..], replies[1..], ignore400), d);
      NothingInFront(Successes(docs[1..], replies[1..]));
      NothingInFront(Drops(docs[1..], replies[1..], ignore400));
      NothingInFront(Retries(docs[1..], replies[1..], ignore400));
    }
  }

  lemma NothingInFront(docs: seq<Doc>)
    ensures [] + docs == docs
  {
  }

  // ------------------------------------------------------------------
  // All attempts
  // ------------------------------------------------------------------

  /**
   The result of a flush: what is yielded, the part of it that is yielded by
   requests that then raised, what is dropped and what is left unindexed, how
   many requests were made, and how it ends.
   */
  datatype Flushed =
    Flushed(yielded: seq<Doc>, early: seq<Doc>, dropped: seq<Doc>, left: seq<Doc>, attempts: nat, ending: Ending)

  datatype Ending = Returned | BulkIndexError(failures: int) | TransportError

  const NOTHING_FLUSHED := Flushed([], [], [], [], 0, Returned)

  function Flush(index: Index, maxRetries: nat, ignore400: bool, n: nat, docs: seq<Doc>): (r: Flushed)
    requires InOrder(index) && n <= maxRetries
    decreases maxRetries - n
  {
    var Attempt(replies, raised) := index(n, docs);
    var yielded := Successes(docs, replies);
    if raised then
      if n == maxRetries then Flushed(yielded, yielded, [], docs, n + 1, TransportError)
      else
        var r := Flush(index, maxRetries, ignore400, n + 1, docs);
        r.(yielded := yielded + r.yielded, early := yielded + r.early)
    else
      var dropped, retry := Drops(docs, replies, ignore400), Retries(docs, replies, ignore400);
      if retry == [] then Flushed(yielded, [], dropped, [], n + 1, Returned)
      else if n == maxRetries then
        Flushed(yielded, [], dropped, retry, n + 1, BulkIndexError(|replies| - |yielded|))
      else
        var r := Flush(index, maxRetries, ignore400, n + 1, retry);
        r.(yielded := yielded + r.yielded, dropped := dropped + r.dropped)
  }

  /**
   Every document is yielded, dropped or left as often as it was sent; only what
   a request yields before it raises comes on top.
   */
  lemma {:induction false} FlushConserves(index: Index, maxRetries: nat, ignore400: bool, n: nat, docs: seq<Doc>, d: Doc)
    requires InOrder(index) && n <= maxRetries
    ensures var r := Flush(index, maxRetries, ignore400, n, docs);
            Count(docs, d) + Count(r.early, d) == Count(r.yielded, d) + Count(r.dropped, d) + Count(r.left, d)
    decreases maxRetries - n
  {
    hide Successes, Drops, Retries, Count;
    var a := index(n, docs);
    var retry := if a.raised then docs else Retries(docs, a.replies, ignore400);
    CountJoins([], [], d);
    if !a.raised {
      RequestConserves(docs, a.replies, ignore400, d);
    }
    if n < maxRetries && (a.raised || retry != []) {
      FlushConserves(index, maxRetries, ignore400, n + 1, retry, d);
      var r := Flush(index, maxRetries, ignore400, n + 1, retry);
      CountJoins(Successes(docs, a.replies), r.yielded, d);
      CountJoins(Successes(docs, a.replies), r.early, d);
      CountJoins(Drops(docs, a.replies, ignore400), r.dropped, d);
    }
  }

  /** At most one request more than there are retries, and all of them before giving up. */
  lemma {:induction false} FlushAttempts(index: Index, maxRetries: nat, ignore400: bool, n: nat, docs: seq<Doc>)
    requires InOrder(index) && n <= maxRetries
    ensures var r := Flush(index, maxRetries, ignore400, n, docs);
            && n < r.attempts <= maxRetries + 1
            && (r.left != [] ==> r.attempts == maxRetries + 1)
            && (!ignore400 ==> r.dropped == [])
    decreases maxRetries - n
  {
    hide Successes, Drops, Retries;
    var a := index(n, docs);
    var retry := if a.raised then docs else Retries(docs, a.replies, ignore400);
    NoDrops(docs, a.replies);
    if n < maxRetries {
      FlushAttempts(index, maxRetries, ignore400, n + 1, retry);
    }
  }

  lemma {:induction false} NoDrops(docs: seq<Doc>, replies: seq<Reply>)
    requires |replies| <= |docs|
    ensures Drops(docs, replies, false) == []
  {
    if replies != [] {
      NoDrops(docs[1..], replies[1..]);
    }
  }

  /** Some request of the run reports a document as indexed and then raises. */
  predicate RaisesLate(index: Index, maxRetries: nat, ignore400: bool, n: nat, docs: seq<Doc>)
    requires InOrder(index) && n <= maxRetries
    decreases maxRetries - n
  {
    var Attempt(replies, raised) := index(n, docs);
    if raised then Indexed in replies || (n < maxRetries && RaisesLate(index, maxRetries, ignore400, n + 1, docs))
    else
      var retry := Retries(docs, replies, ignore400);
      retry != [] && n < maxRetries && RaisesLate(index, maxRetries, ignore400, n + 1, retry)
  }

  lemma {:induction false} SuccessesIff(docs: seq<Doc>, replies: seq<Reply>)
    requires |replies| <= |docs|
    ensures Successes(docs, replies) != [] <==> Indexed in replies
  {
    if replies != [] {
      SuccessesIff(docs[1..], replies[1..]);
      assert replies == [replies[0]] + replies[1..];
    }
  }

  lemma {:induction false} EarlyIffLate(index: Index, maxRetries: nat, ignore400: bool, n: nat, docs: seq<Doc>)
    requires InOrder(index) && n <= maxRetries
    ensures Flush(index, maxRetries, ignore400, n, docs).early != [] <==> RaisesLate(index, maxRetries, ignore400, n, docs)
    decreases maxRetries - n
  {
    hide Successes, Drops, Retries;
    var a := index(n, docs);
    SuccessesIff(docs, a.replies);
    if n < maxRetries {
      EarlyIffLate(index, maxRetries, ignore400, n + 1, if a.raised then docs else Retries(docs, a.replies, ignore400));
    }
  }

  /** A document is yielded, dropped or left just as often as it was sent. */
  ghost predicate Accounted(docs: seq<Doc>, r: Flushed) {
    forall d :: Count(r.yielded, d) + Count(r.dropped, d) + Count(r.left, d) == Count(docs, d)
  }

  /**
   Every document is accounted for, and of different documents none is yielded,
   dropped or left twice, exactly when no request indexes something and then
   raises.
   */
  lemma AccountedIff(index: Index, maxRetries: nat, ignore400: bool, docs: seq<Doc>)
    requires InOrder(index)
    ensures Accounted(docs, Flush(index, maxRetries, ignore400, 0, docs)) <==> !RaisesLate(index, maxRetries, ignore400, 0, docs)
  {
    hide Flush, RaisesLate, Count;
    var r := Flush(index, maxRetries, ignore400, 0, docs);
    EarlyIffLate(index, maxRetries, ignore400, 0, docs);
    if r.early == [] {
      forall d: Doc
        ensures Count(r.yielded, d) + Count(r.dropped, d) + Count(r.left, d) == Count(docs, d)
      {
        FlushConserves(index, maxRetries, ignore400, 0, docs, d);
        CountJoins([], [], d);
      }
    } else {
      FlushConserves(index, maxRetries, ignore400, 0, docs, r.early[0]);
      CountsFirst(r.early);
    }
  }

  lemma CountsFirst(docs: seq<Doc>)
    requires docs != []
    ensures Count(docs, docs[0]) > 0
  {
    assert docs[0] in docs;
    assert docs[0] in multiset(docs);
  }

  /** An index that indexes the first document it is sent, raises, and then indexes everything. */
  function LateIndex(n: nat, docs: seq<Doc>): (a: Attempt) {
    if docs != [] && n == 0 then Attempt([Indexed], true) else Attempt(seq(|docs|, i => Indexed), false)
  }

  /** With that index a document is yielded twice. */
  lemma LateRaiseYieldsTwice(d: Doc)
    ensures InOrder(LateIndex) && RaisesLate(LateIndex, 1, true, 0, [d])
    ensures Flush(LateIndex, 1, true, 0, [d]).yielded == [d, d]
    ensures !Accounted([d], Flush(LateIndex, 1, true, 0, [d]))
  {
    hide Successes, Drops, Retries;
    var index: Index := LateIndex;
    assert InOrder(index);
    assert index(0, [d]) == Attempt([Indexed], true);
    assert index(1, [d]).replies == [Indexed];
    OneTaken(d, true);
    assert Flush(index, 1, true, 1, [d]).yielded == [d];
    AccountedIff(index, 1, true, [d]);
  }

  /** What the n-th request gets: the documents it indexes, those to send again, whether it raises, and how many it refuses. */
  datatype Outcome = Outcome(done: seq<Doc>, retry: seq<Doc>, raised: bool, failures: int)

  function Request(index: Index, ignore400: bool, n: nat, docs: seq<Doc>): (r: Outcome)
    requires InOrder(index)
  {
    var Attempt(replies, raised) := index(n, docs);
    Outcome(Successes(docs, replies), if raised then docs else Retries(docs, replies, ignore400), raised,
            |replies| - |Successes(docs, replies)|)
  }

  /** What was yielded so far and what flushing `docs` from the n-th request on gives make up `r`. */
  ghost predicate Remaining(index: Index, maxRetries: nat, ignore400: bool, n: nat, docs: seq<Doc>,
                            yielded: seq<Doc>, r: Flushed)
    requires InOrder(index) && n <= maxRetries
  {
    var rest := Flush(index, maxRetries, ignore400, n, docs);
    && yielded + rest.yielded == r.yielded && rest.left == r.left
    && rest.attempts == r.attempts && rest.ending == r.ending
  }

  /** One request, and what is left to do behind it. */
  lemma RemainingSteps(index: Index, maxRetries: nat, ignore400: bool, n: nat, docs: seq<Doc>, yielded: seq<Doc>, r: Flushed)
    requires InOrder(index) && n <= maxRetries && Remaining(index, maxRetries, ignore400, n, docs, yielded, r)
    ensures var o := Request(index, ignore400, n, docs);
            if n == maxRetries || (!o.raised && o.retry == []) then
              && yielded + o.done == r.yielded && r.left == o.retry && r.attempts == n + 1
              && r.ending ==
                 (if o.raised then TransportError else if o.retry == [] then Returned else BulkIndexError(o.failures))
            else
              Remaining(index, maxRetries, ignore400, n + 1, o.retry, yielded + o.done, r)
  {
    hide Successes, Drops, Retries;
    var o := Request(index, ignore400, n, docs);
    if !(n == maxRetries || (!o.raised && o.retry == [])) {
      var rest := Flush(index, maxRetries, ignore400, n + 1, o.retry);
      assert yielded + (o.done + rest.yielded) == yielded + o.done + rest.yielded;
    }
  }

  lemma RemainingStarts(index: Index, maxRetries: nat, ignore400: bool, docs: seq<Doc>)
    requires InOrder(index)
    ensures Remaining(index, maxRetries, ignore400, 0, docs, [], Flush(index, maxRetries, ignore400, 0, docs))
  {
    hide Flush;
    var r := Flush(index, maxRetries, ignore400, 0, docs);
    assert [] + r.yielded == r.yielded;
  }

  // ------------------------------------------------------------------
  // The requests of a flush
  // ------------------------------------------------------------------

  /** A request and how it was answered. */
  datatype Exchange = Exchange(docs: seq<Doc>, attempt: Attempt)

  /** The requests from the n-th on. */
  function Log(index: Index, maxRetries: nat, ignore400: bool, n: nat, docs: seq<Doc>): (r: seq<Exchange>)
    requires InOrder(index) && n <= maxRetries
    decreases maxRetries - n
  {
    var a := index(n, docs);
    var again := if a.raised then docs else Retries(docs, a.replies, ignore400);
    [Exchange(docs, a)] +
    if n == maxRetries || (!a.raised && again == []) then [] else Log(index, maxRetries, ignore400, n + 1, again)
  }

  /** `r` has the elements of `docs` at the places `at`, in order. */
  predicate Picks(docs: seq<Doc>, at: seq<nat>, r: seq<Doc>) {
    && |at| == |r|
    && (forall k :: 0 <= k < |at| ==> at[k] < |docs| && r[k] == docs[at[k]])
    && (forall j, k :: 0 <= j < k < |at| ==> at[j] < at[k])
  }

  /** The documents refused for another reason than status 400, or for any reason unless that status is ignored. */
  ghost predicate WorthAgain(docs: seq<Doc>, replies: seq<Reply>, ignore400: bool, r: seq<Doc>)
    requires |replies| <= |docs|
  {
    exists at: seq<nat> ::
      && Picks(docs, at, r)
      && forall i: nat :: i in at <==>
           i < |replies| && replies[i].Refused? && (replies[i].status == 400 ==> !ignore400)
  }

  ghost predicate AreIndexed(docs: seq<Doc>, replies: seq<Reply>, r: seq<Doc>)
    requires |replies| <= |docs|
  {
    exists at: seq<nat> :: Picks(docs, at, r) && forall i: nat :: i in at <==> i < |replies| && replies[i].Indexed?
  }

  /** The places in a list with one more element in front. */
  function Shifted(at: seq<nat>, first: bool): (r: seq<nat>) {
    (if first then [0] else []) + seq(|at|, k requires 0 <= k < |at| => at[k] + 1)
  }

  lemma ShiftedPicks(docs: seq<Doc>, at: seq<nat>, r: seq<Doc>, first: bool)
    requires docs != [] && Picks(docs[1..], at, r)
    ensures Picks(docs, Shifted(at, first), (if first then [docs[0]] else []) + r)
    ensures forall i: nat :: i in Shifted(at, first) <==> if i == 0 then first else i - 1 in at
  {
    ShiftedIn(at, first);
    var tail := seq(|at|, k requires 0 <= k < |at| => at[k] + 1);
    assert |tail| == |r| && forall k :: 0 <= k < |at| ==> tail[k] == at[k] + 1 && r[k] == docs[tail[k]];
  }

  lemma ShiftedIn(at: seq<nat>, first: bool)
    ensures forall i: nat :: i in Shifted(at, first) <==> if i == 0 then first else i - 1 in at
  {
    var s := Shifted(at, first);
    var d := if first then 1 else 0;
    forall i: nat | i > 0 && i - 1 in at
      ensures i in s
    {
      var k :| 0 <= k < |at| && at[k] == i - 1;
      assert s[k + d] == i;
    }
    if first {
      assert s[0] == 0;
    }
  }

  lemma {:induction false} RetriesAt(docs: seq<Doc>, replies: seq<Reply>, ignore400: bool) returns (at: seq<nat>)
    requires |replies| <= |docs|
    ensures Picks(docs, at, Retries(docs, replies, ignore400))
    ensures forall i: nat :: i in at <==> i < |replies| && replies[i].Refused? && (replies[i].status == 400 ==> !ignore400)
  {
    at := [];
    if replies != [] {
      var rest := RetriesAt(docs[1..], replies[1..], ignore400);
      var first := replies[0].Refused? && (replies[0].status == 400 ==> !ignore400);
      ShiftedPicks(docs, rest, Retries(docs[1..], replies[1..], ignore400), first);
      at := Shifted(rest, first);
    }
  }

  lemma {:induction false} SuccessesAt(docs: seq<Doc>, replies: seq<Reply>) returns (at: seq<nat>)
    requires |replies| <= |docs|
    ensures Picks(docs, at, Successes(docs, replies))
    ensures forall i: nat :: i in at <==> i < |replies| && replies[i].Indexed?
  {
    at := [];
    if replies != [] {
      var rest := SuccessesAt(docs[1..], replies[1..]);
      ShiftedPicks(docs, rest, Successes(docs[1..], replies[1..]), replies[0].Indexed?);
      at := Shifted(rest, replies[0].Indexed?);
    }
  }

  lemma {:induction false} DropsAt(docs: seq<Doc>, replies: seq<Reply>, ignore400: bool) returns (at: seq<nat>)
    requires |replies| <= |docs|
    ensures Picks(docs, at, Drops(docs, replies, ignore400))
    ensures forall i: nat :: i in at <==> i < |replies| && replies[i] == Refused(400) && ignore400
  {
    at := [];
    if replies != [] {
      var rest := DropsAt(docs[1..], replies[1..], ignore400);
      var first := replies[0] == Refused(400) && ignore400;
      ShiftedPicks(docs, rest, Drops(docs[1..], replies[1..], ignore400), first);
      at := Shifted(rest, first);
    }
  }

  /** The index answered this as the n-th request. */
  ghost predicate Answered(index: Index, n: nat, e: Exchange) {
    e.attempt == index(n, e.docs) && |e.attempt.replies| <= |e.docs|
  }

  /** What is sent behind `e`: all of it after a transport error, else what is worth it. */
  ghost predicate SentAgain(e: Exchange, next: seq<Doc>, ignore400: bool)
    requires |e.attempt.replies| <= |e.docs|
  {
    if e.attempt.raised then next == e.docs else WorthAgain(e.docs, e.attempt.replies, ignore400, next)
  }

  /** These are the requests that flushing `docs` makes, the first one being the n-th, and `left` is what they leave. */
  ghost predicate IsRun(index: Index, maxRetries: nat, ignore400: bool, n: nat, docs: seq<Doc>,
                        log: seq<Exchange>, left: seq<Doc>) {
    && 0 < |log| <= maxRetries + 1 - n && log[0].docs == docs
    && (forall k :: 0 <= k < |log| ==> Answered(index, n + k, log[k]))
    && (forall k :: 0 <= k < |log| - 1 ==>
          SentAgain(log[k], log[k + 1].docs, ignore400) && (log[k].attempt.raised || log[k + 1].docs != []))
    && (var last := log[|log| - 1];
        && SentAgain(last, left, ignore400)
        && (|log| < maxRetries + 1 - n ==> !last.attempt.raised && left == []))
  }

  lemma {:induction false} LogIsRun(index: Index, maxRetries: nat, ignore400: bool, n: nat, docs: seq<Doc>)
    requires InOrder(index) && n <= maxRetries
    ensures IsRun(index, maxRetries, ignore400, n, docs, Log(index, maxRetries, ignore400, n, docs),
                  Flush(index, maxRetries, ignore400, n, docs).left)
    decreases maxRetries - n
  {
    hide Successes, Drops, Retries, WorthAgain;
    var e := Exchange(docs, index(n, docs));
    var again := if e.attempt.raised then docs else Retries(docs, e.attempt.replies, ignore400);
    LogStep(index, maxRetries, ignore400, n, docs);
    if !(n == maxRetries || (!e.attempt.raised && again == [])) {
      var log, left := Log(index, maxRetries, ignore400, n + 1, again), Flush(index, maxRetries, ignore400, n + 1, again).left;
      LogIsRun(index, maxRetries, ignore400, n + 1, again);
      RunGrows(index, maxRetries, ignore400, n, e, log, left);
    }
  }

  lemma LogStep(index: Index, maxRetries: nat, ignore400: bool, n: nat, docs: seq<Doc>)
    requires InOrder(index) && n <= maxRetries
    ensures var e := Exchange(docs, index(n, docs));
            && Answered(index, n, e)
            && (e.attempt.raised || SentAgain(e, Retries(docs, e.attempt.replies, ignore400), ignore400))
  {
    var a := index(n, docs);
    var at := RetriesAt(docs, a.replies, ignore400);
  }

  lemma RunGrows(index: Index, maxRetries: nat, ignore400: bool, n: nat, e: Exchange, log: seq<Exchange>, left: seq<Doc>)
    requires n < maxRetries && Answered(index, n, e) && log != [] && SentAgain(e, log[0].docs, ignore400)
    requires e.attempt.raised || log[0].docs != []
    requires IsRun(index, maxRetries, ignore400, n + 1, log[0].docs, log, left)
    ensures IsRun(index, maxRetries, ignore400, n, e.docs, [e] + log, left)
  {
    hide SentAgain, Answered;
    var all := [e] + log;
    assert forall k :: 1 <= k < |all| ==> all[k] == log[k - 1];
    forall k | 0 <= k < |all|
      ensures Answered(index, n + k, all[k])
    {
      if k > 0 {
        assert n + k == n + 1 + (k - 1);
        assert Answered(index, n + 1 + (k - 1), log[k - 1]);
      }
    }
  }

  /** A request of the run that was answered in full refused the document with status 400. */
  ghost predicate Refuses400(log: seq<Exchange>, d: Doc) {
    exists k, i :: 0 <= k < |log| && 0 <= i < |log[k].docs| && i < |log[k].attempt.replies| && !log[k].attempt.raised
                   && log[k].docs[i] == d && log[k].attempt.replies[i] == Refused(400)
  }

  predicate NoneRefused400(log: seq<Exchange>) {
    forall k :: 0 <= k < |log| ==> Refused(400) !in log[k].attempt.replies
  }

  /** A document is dropped only if a request answered it with status 400, and that is ignored. */
  lemma {:induction false} DroppedWasRefused(index: Index, maxRetries: nat, ignore400: bool, n: nat, docs: seq<Doc>, d: Doc)
    requires InOrder(index) && n <= maxRetries && d in Flush(index, maxRetries, ignore400, n, docs).dropped
    ensures ignore400 && Refuses400(Log(index, maxRetries, ignore400, n, docs), d)
    decreases maxRetries - n
  {
    hide Successes, Drops, Retries;
    var a := index(n, docs);
    var again := if a.raised then docs else Retries(docs, a.replies, ignore400);
    var log := Log(index, maxRetries, ignore400, n, docs);
    assert log[0] == Exchange(docs, a);
    if !a.raised && d in Drops(docs, a.replies, ignore400) {
      DropsRefused(docs, a.replies, ignore400, d);
      var i :| 0 <= i < |docs| && docs[i] == d && a.replies[i] == Refused(400);
      assert log[0].docs[i] == d && log[0].attempt.replies[i] == Refused(400);
    } else {
      DroppedWasRefused(index, maxRetries, ignore400, n + 1, again, d);
      var rest := Log(index, maxRetries, ignore400, n + 1, again);
      var k, i :| 0 <= k < |rest| && 0 <= i < |rest[k].docs| && i < |rest[k].attempt.replies| && !rest[k].attempt.raised
                  && rest[k].docs[i] == d && rest[k].attempt.replies[i] == Refused(400);
      assert log[k + 1] == rest[k];
      assert log[k + 1].docs[i] == d && log[k + 1].attempt.replies[i] == Refused(400);
    }
  }

  lemma DropsRefused(docs: seq<Doc>, replies: seq<Reply>, ignore400: bool, d: Doc)
    requires |replies| == |docs| && d in Drops(docs, replies, ignore400)
    ensures ignore400 && exists i :: 0 <= i < |docs| && docs[i] == d && replies[i] == Refused(400)
  {
    var drops := Drops(docs, replies, ignore400);
    var at := DropsAt(docs, replies, ignore400);
    var k :| 0 <= k < |drops| && drops[k] == d;
    assert at[k] in at;
  }

  /** Without such an answer nothing is dropped. */
  lemma NothingIsDropped(index: Index, maxRetries: nat, ignore400: bool, n: nat, docs: seq<Doc>)
    requires InOrder(index) && n <= maxRetries
    requires ignore400 ==> NoneRefused400(Log(index, maxRetries, ignore400, n, docs))
    ensures Flush(index, maxRetries, ignore400, n, docs).dropped == []
  {
    hide Flush, Log;
    var dropped := Flush(index, maxRetries, ignore400, n, docs).dropped;
    if dropped != [] {
      DroppedWasRefused(index, maxRetries, ignore400, n, docs, dropped[0]);
    }
  }

  function Concat(parts: seq<seq<Doc>>): (r: seq<Doc>) {
    if parts == [] then [] else parts[0] + Concat(parts[1..])
  }

  /** Each request yields the documents it reports as indexed. */
  ghost predicate Yields(log: seq<Exchange>, parts: seq<seq<Doc>>) {
    && |parts| == |log|
    && forall k :: 0 <= k < |log| ==>
         |log[k].attempt.replies| <= |log[k].docs| && AreIndexed(log[k].docs, log[k].attempt.replies, parts[k])
  }

  /** A flush ends as its last request does: with its error, in peace, or counting what it refused. */
  predicate EndsAs(last: Exchange, part: seq<Doc>, left: seq<Doc>, ending: Ending) {
    ending == if last.attempt.raised then TransportError
              else if left == [] then Returned
              else BulkIndexError(|last.attempt.replies| - |part|)
  }

  /** What the requests yield, request by request, and how the last one ends the flush. */
  ghost predicate Tells(log: seq<Exchange>, parts: seq<seq<Doc>>, r: Flushed) {
    && log != [] && Yields(log, parts) && Concat(parts) == r.yielded
    && EndsAs(log[|log| - 1], parts[|log| - 1], r.left, r.ending)
  }

  lemma TellsMore(e: Exchange, part: seq<Doc>, log: seq<Exchange>, parts: seq<seq<Doc>>, r: Flushed, more: Flushed)
    requires Tells(log, parts, r) && more.yielded == part + r.yielded && more.left == r.left && more.ending == r.ending
    requires |e.attempt.replies| <= |e.docs| && AreIndexed(e.docs, e.attempt.replies, part)
    ensures Tells([e] + log, [part] + parts, more)
  {
    hide AreIndexed;
    assert ([part] + parts)[1..] == parts;
  }

  lemma TellsOne(e: Exchange, part: seq<Doc>, r: Flushed)
    requires r.yielded == part && EndsAs(e, part, r.left, r.ending)
    requires |e.attempt.replies| <= |e.docs| && AreIndexed(e.docs, e.attempt.replies, part)
    ensures Tells([e], [part], r)
  {
    hide AreIndexed;
    assert [part][1..] == [] && Concat([]) == [] && part + [] == part;
  }

  lemma {:induction false} YieldedParts(index: Index, maxRetries: nat, ignore400: bool, n: nat, docs: seq<Doc>)
      returns (parts: seq<seq<Doc>>)
    requires InOrder(index) && n <= maxRetries
    ensures Tells(Log(index, maxRetries, ignore400, n, docs), parts, Flush(index, maxRetries, ignore400, n, docs))
    decreases maxRetries - n
  {
    hide Successes, Drops, Retries, Tells, AreIndexed;
    var a := index(n, docs);
    var e := Exchange(docs, a);
    var again := if a.raised then docs else Retries(docs, a.replies, ignore400);
    var yielded, r := Successes(docs, a.replies), Flush(index, maxRetries, ignore400, n, docs);
    SuccessesAreIndexed(docs, a.replies);
    if n == maxRetries || (!a.raised && again == []) {
      parts := [yielded];
      TellsOne(e, yielded, r);
      assert [e] + [] == [e];
    } else {
      var rest := YieldedParts(index, maxRetries, ignore400, n + 1, again);
      parts := [yielded] + rest;
      TellsMore(e, yielded, Log(index, maxRetries, ignore400, n + 1, again), rest,
                Flush(index, maxRetries, ignore400, n + 1, again), r);
    }
  }

  lemma SuccessesAreIndexed(docs: seq<Doc>, replies: seq<Reply>)
    requires |replies| <= |docs|
    ensures AreIndexed(docs, replies, Successes(docs, replies))
  {
    var at := SuccessesAt(docs, replies);
  }

  // ------------------------------------------------------------------
  // The flush itself
  // ------------------------------------------------------------------

  function Insert(d: Doc, docs: seq<Doc>): (r: seq<Doc>) {
    if docs == [] || d.id <= docs[0].id then [d] + docs else [docs[0]] + Insert(d, docs[1..])
  }

  /** A stable sort by document id. */
  function SortById(docs: seq<Doc>): (r: seq<Doc>) {
    if docs == [] then [] else Insert(docs[0], SortById(docs[1..]))
  }

  lemma {:induction false} InsertAdds(d: Doc, docs: seq<Doc>)
    ensures multiset(Insert(d, docs)) == multiset{d} + multiset(docs)
  {
    if docs != [] && d.id > docs[0].id {
      InsertAdds(d, docs[1..]);
      assert docs == [docs[0]] + docs[1..];
    }
  }

  lemma {:induction false} SortKeepsAll(docs: seq<Doc>)
    ensures multiset(SortById(docs)) == multiset(docs)
  {
    if docs != [] {
      SortKeepsAll(docs[1..]);
      InsertAdds(docs[0], SortById(docs[1..]));
      assert docs == [docs[0]] + docs[1..];
    }
  }

  predicate Sorted(docs: seq<Doc>) {
    |docs| > 1 ==> docs[0].id <= docs[1].id && Sorted(docs[1..])
  }

  lemma {:induction false} InsertSorts(d: Doc, docs: seq<Doc>)
    requires Sorted(docs)
    ensures Sorted(Insert(d, docs)) && (Insert(d, docs)[0] == d || (docs != [] && Insert(d, docs)[0] == docs[0]))
  {
    if docs != [] && d.id > docs[0].id {
      InsertSorts(d, docs[1..]);
    }
  }

  lemma {:induction false} SortSorts(docs: seq<Doc>)
    ensures Sorted(SortById(docs))
  {
    if docs != [] {
      SortSorts(docs[1..]);
      InsertSorts(docs[0], SortById(docs[1..]));
    }
  }

  function WithId(docs: seq<Doc>, id: int): (r: seq<Doc>) {
    if docs == [] then [] else (if docs[0].id == id then [docs[0]] else []) + WithId(docs[1..], id)
  }

  lemma WithIdOfFirst(d: Doc, docs: seq<Doc>, id: int)
    ensures WithId([d] + docs, id) == (if d.id == id then [d] else []) + WithId(docs, id)
  {
    assert ([d] + docs)[1..] == docs;
  }

  lemma {:induction false} InsertIsStable(d: Doc, docs: seq<Doc>, id: int)
    ensures WithId(Insert(d, docs), id) == (if d.id == id then [d] else []) + WithId(docs, id)
  {
    WithIdOfFirst(d, docs, id);
    if docs != [] && d.id > docs[0].id {
      InsertIsStable(d, docs[1..], id);
      WithIdOfFirst(docs[0], Insert(d, docs[1..]), id);
    }
  }

  /** Documents with the same identifier stay in their order. */
  lemma {:induction false} SortIsStable(docs: seq<Doc>, id: int)
    ensures WithId(SortById(docs), id) == WithId(docs, id)
  {
    if docs != [] {
      SortIsStable(docs[1..], id);
      InsertIsStable(docs[0], SortById(docs[1..]), id);
    }
  }

  /** One reply sorts one document. */
  lemma ReplyStep(docs: seq<Doc>, replies: seq<Reply>, ignore400: bool, i: nat)
    requires i < |replies| <= |docs|
    ensures var again := replies[i].Refused? && !Dropped(replies[i], ignore400);
            && Successes(docs[i..], replies[i..]) ==
               (if replies[i].Indexed? then [docs[i]] else []) + Successes(docs[i + 1..], replies[i + 1..])
            && Retries(docs[i..], replies[i..], ignore400) ==
               (if again then [docs[i]] else []) + Retries(docs[i + 1..], replies[i + 1..], ignore400)
  {
    assert docs[i..][1..] == docs[i + 1..] && replies[i..][1..] == replies[i + 1..];
  }

  lemma RepliesEnds(docs: seq<Doc>, replies: seq<Reply>, ignore400: bool)
    requires |replies| <= |docs|
    ensures docs[0..] == docs && replies[0..] == replies && replies[|replies|..] == []
    ensures Successes(docs[|replies|..], []) == [] && Retries(docs[|replies|..], [], ignore400) == []
  {
  }

  lemma NoRequests()
    ensures Yields([], []) && Concat([]) == []
  {
  }

  /** What the requests of a flush say about its result. */
  lemma LogTells(index: Index, maxRetries: nat, ignore400: bool, docs: seq<Doc>) returns (parts: seq<seq<Doc>>)
    requires InOrder(index)
    ensures var r, log := Flush(index, maxRetries, ignore400, 0, docs), Log(index, maxRetries, ignore400, 0, docs);
            && |log| == r.attempts && IsRun(index, maxRetries, ignore400, 0, docs, log, r.left)
            && Yields(log, parts) && r.yielded == Concat(parts)
            && EndsAs(log[|log| - 1], parts[|log| - 1], r.left, r.ending)
            && (forall d <- r.dropped :: ignore400 && Refuses400(log, d))
            && ((ignore400 ==> NoneRefused400(log)) ==> r.dropped == [])
  {
    hide Flush, Log, IsRun, Yields, Concat, Refuses400, NoneRefused400, EndsAs;
    var r, log := Flush(index, maxRetries, ignore400, 0, docs), Log(index, maxRetries, ignore400, 0, docs);
    LogCounts(index, maxRetries, ignore400, 0, docs);
    LogIsRun(index, maxRetries, ignore400, 0, docs);
    parts := YieldedParts(index, maxRetries, ignore400, 0, docs);
    forall d <- r.dropped
      ensures ignore400 && Refuses400(log, d)
    {
      DroppedWasRefused(index, maxRetries, ignore400, 0, docs, d);
    }
    if ignore400 ==> NoneRefused400(log) {
      NothingIsDropped(index, maxRetries, ignore400, 0, docs);
    }
  }

  lemma {:induction false} LogCounts(index: Index, maxRetries: nat, ignore400: bool, n: nat, docs: seq<Doc>)
    requires InOrder(index) && n <= maxRetries
    ensures |Log(index, maxRetries, ignore400, n, docs)| == Flush(index, maxRetries, ignore400, n, docs).attempts - n
    decreases maxRetries - n
  {
    hide Successes, Drops, Retries;
    var a := index(n, docs);
    var again := if a.raised then docs else Retries(docs, a.replies, ignore400);
    if n < maxRetries && (a.raised || again != []) {
      LogCounts(index, maxRetries, ignore400, n + 1, again);
    }
  }

  /** An index that refuses everything at first for being too busy, and then takes it. */
  function BusyIndex(n: nat, docs: seq<Doc>): (a: Attempt) {
    Attempt(seq(|docs|, i => if n == 0 then Refused(429) else Indexed), false)
  }

  /** A document it refused is sent again and yielded, also when status 400 is ignored. */
  lemma BusyIndexIsAskedAgain(d: Doc, ignore400: bool)
    ensures InOrder(BusyIndex)
    ensures Flush(BusyIndex, 1, ignore400, 0, [d]) == Flushed([d], [], [], [], 2, Returned)
  {
    hide Successes, Drops, Retries;
    var index: Index := BusyIndex;
    assert InOrder(index);
    assert index(0, [d]).replies == [Refused(429)] && index(1, [d]).replies == [Indexed];
    OneRefused(d, ignore400);
    OneTaken(d, ignore400);
    assert Flush(index, 1, ignore400, 1, [d]) == Flushed([d], [], [], [], 2, Returned);
  }

  lemma OneRefused(d: Doc, ignore400: bool)
    ensures var replies: seq<Reply> := [Refused(429)];
            Successes([d], replies) == [] && Drops([d], replies, ignore400) == [] && Retries([d], replies, ignore400) == [d]
  {
    var replies: seq<Reply> := [Refused(429)];
    assert replies[1..] == [] && [d][1..] == [];
    assert Successes([], []) == [] && Drops([], [], ignore400) == [] && Retries([], [], ignore400) == [];
  }

  lemma OneTaken(d: Doc, ignore400: bool)
    ensures var replies: seq<Reply> := [Indexed];
            Successes([d], replies) == [d] && Drops([d], replies, ignore400) == [] && Retries([d], replies, ignore400) == []
  {
    var replies: seq<Reply> := [Indexed];
    assert replies[1..] == [] && [d][1..] == [];
    assert Successes([], []) == [] && Drops([], [], ignore400) == [] && Retries([], [], ignore400) == [];
  }

  class Indexer {
    const maxRetries: nat
    const ignore400: bool
    var buffer: seq<Doc>

    constructor (maxRetries: nat, ignore400: bool)
      ensures this.maxRetries == maxRetries && this.ignore400 == ignore400 && buffer == []
    {
      this.maxRetries := maxRetries;
      this.ignore400 := ignore400;
      buffer := [];
    }

    /** Goes through the replies of one request. */
    method TakeReplies(replies: seq<Reply>) returns (yielded: seq<Doc>, toRetry: seq<Doc>, errors: nat)
      requires |replies| <= |buffer|
      ensures yielded == Successes(buffer, replies) && toRetry == Retries(buffer, replies, ignore400)
      ensures AreIndexed(buffer, replies, yielded) && WorthAgain(buffer, replies, ignore400, toRetry)
      ensures errors == |replies| - |yielded| && |toRetry| <= errors
    {
      hide Successes, Retries;
      RepliesEnds(buffer, replies, ignore400);
      yielded, toRetry, errors := [], [], 0;
      for i := 0 to |replies|
        invariant yielded + Successes(buffer[i..], replies[i..]) == Successes(buffer, replies)
        invariant toRetry + Retries(buffer[i..], replies[i..], ignore400) == Retries(buffer, replies, ignore400)
        invariant errors == i - |yielded| && |toRetry| <= errors
      {
        ReplyStep(buffer, replies, ignore400, i);
        if replies[i].Refused? {
          errors := errors + 1;
          if replies[i].status != 400 || !ignore400 {
            toRetry := toRetry + [buffer[i]];
          }
        } else {
          yielded := yielded + [buffer[i]];
        }
      }
      ghost var done := SuccessesAt(buffer, replies);
      ghost var again := RetriesAt(buffer, replies, ignore400);
    }

    /**
     Sends the buffer until nothing is worth sending again or the retries are
     used up, and counts the requests. It ends in an error exactly when something
     is left. Each request is for what the one before it left worth sending, what
     is yielded are the documents the requests report as indexed, and a document
     is dropped only if one of them refused it with status 400.
     */
    method FlushBuffer(index: Index)
      returns (yielded: seq<Doc>, ending: Ending, requests: nat,
               ghost result: Flushed, ghost log: seq<Exchange>, ghost parts: seq<seq<Doc>>)
      requires InOrder(index)
      modifies this
      ensures buffer == []
      ensures result == if old(buffer) == [] then NOTHING_FLUSHED
                        else Flush(index, maxRetries, ignore400, 0, SortById(old(buffer)))
      ensures yielded == result.yielded && ending == result.ending && (ending == Returned <==> result.left == [])
      ensures requests == result.attempts == |log| <= maxRetries + 1
      ensures old(buffer) != [] ==>
                IsRun(index, maxRetries, ignore400, 0, SortById(old(buffer)), log, result.left)
      ensures Yields(log, parts) && yielded == Concat(parts)
      ensures log != [] ==> EndsAs(log[|log| - 1], parts[|log| - 1], result.left, ending)
      ensures forall d <- result.dropped :: ignore400 && Refuses400(log, d)
      ensures (ignore400 ==> NoneRefused400(log)) ==> result.dropped == []
    {
      hide Flush, Remaining, Request, InOrder, SortById, IsRun, Yields, Log, Concat, EndsAs, Refuses400,
        NoneRefused400;
      yielded, ending, requests := [], Returned, 0;
      if |buffer| == 0 {
        NoRequests();
        return yielded, ending, requests, NOTHING_FLUSHED, [], [];
      }
      var retryCount, errors := 0, 0;
      SortKeepsSome(buffer);
      buffer := SortById(buffer);
      result := Flush(index, maxRetries, ignore400, 0, buffer);
      FlushAttempts(index, maxRetries, ignore400, 0, buffer);
      RemainingStarts(index, maxRetries, ignore400, buffer);
      log := Log(index, maxRetries, ignore400, 0, buffer);
      parts := LogTells(index, maxRetries, ignore400, buffer);
      while true
        invariant retryCount == requests <= maxRetries && buffer != []
        invariant Remaining(index, maxRetries, ignore400, retryCount, buffer, yielded, result)
        decreases maxRetries - retryCount
      {
        RemainingSteps(index, maxRetries, ignore400, retryCount, buffer, yielded, result);
        var done, toRetry, raised;
        done, toRetry, raised, errors := Send(index, retryCount);
        requests := requests + 1;
        yielded := yielded + done;
        if raised {
          if retryCount >= maxRetries {
            ending := TransportError;
            break;
          }
        } else {
          if |toRetry| == 0 {
            break;
          }
          buffer := toRetry;
        }
        if retryCount >= maxRetries {
          ending := BulkIndexError(errors);
          break;
        }
        retryCount := retryCount + 1;
      }
      buffer := [];
    }

    /** Sends one request and goes through its replies. */
    method Send(index: Index, n: nat) returns (done: seq<Doc>, toRetry: seq<Doc>, raised: bool, errors: nat)
      requires InOrder(index)
      ensures Request(index, ignore400, n, buffer) == Outcome(done, if raised then buffer else toRetry, raised, errors)
    {
      hide Successes, Retries;
      var attempt := index(n, buffer);
      done, toRetry, errors := TakeReplies(attempt.replies);
      raised := attempt.raised;
    }
  }

  lemma SortKeepsSome(docs: seq<Doc>)
    requires docs != []
    ensures SortById(docs) != []
  {
  }
}

/**
 The order of the calls of a callback walk (resiliparse-rs/src/parse/html/dom/iter.rs):
 a node is finished after it was begun and after everything below it.
 */
module DomWalkOrder {
  import opened Wrappers
  import opened DomTree
  import opened DomWalk

  /** A node is finished only behind the call that begins it, and nothing below it is begun behind that. */
  predicate FinishedBehind(log: seq<Call>, t: Tree) {
    forall i :: 0 <= i < |log| && log[i] == Finished(t.node) ==>
      && Begun(t.node) in log[..i]
      && forall j :: i < j < |log| ==> log[j].node !in Preorder(t.kids)
  }

  /** That goes for all the nodes of a forest. */
  predicate AllFinishedBehind(log: seq<Call>, forest: seq<Tree>)
    decreases forest
  {
    forest != [] ==>
      FinishedBehind(log, forest[0]) && AllFinishedBehind(log, forest[0].kids) && AllFinishedBehind(log, forest[1..])
  }

  /** The calls behind the first `n` are not for these nodes. */
  predicate Spared(log: seq<Call>, n: nat, nodes: seq<nat>) {
    forall j :: n <= j < |log| ==> log[j].node !in nodes
  }

  lemma PreorderParts(forest: seq<Tree>, x: nat)
    requires forest != []
    ensures x in Preorder(forest) <==> x == forest[0].node || x in Preorder(forest[0].kids) || x in Preorder(forest[1..])
  {
  }

  lemma SparedParts(log: seq<Call>, n: nat, forest: seq<Tree>)
    requires forest != [] && Spared(log, n, Preorder(forest))
    ensures Spared(log, n, [forest[0].node]) && Spared(log, n, Preorder(forest[0].kids)) && Spared(log, n, Preorder(forest[1..]))
  {
    forall j | n <= j < |log|
      ensures log[j].node != forest[0].node && log[j].node !in Preorder(forest[0].kids) && log[j].node !in Preorder(forest[1..])
    {
      PreorderParts(forest, log[j].node);
    }
  }

  /** Calls for other nodes change nothing. */
  lemma {:induction false} BehindStays(log: seq<Call>, more: seq<Call>, forest: seq<Tree>)
    requires AllFinishedBehind(log, forest) && log <= more && Spared(more, |log|, Preorder(forest))
    ensures AllFinishedBehind(more, forest)
    decreases forest
  {
    hide Preorder;
    if forest != [] {
      SparedParts(more, |log|, forest);
      assert FinishedBehind(more, forest[0]) by {
        forall i | 0 <= i < |more| && more[i] == Finished(forest[0].node)
          ensures i < |log| && log[i] == Finished(forest[0].node) && more[..i] == log[..i]
        {
        }
      }
      BehindStays(log, more, forest[0].kids);
      BehindStays(log, more, forest[1..]);
    }
  }

  lemma {:induction false} UncalledIsBehind(log: seq<Call>, forest: seq<Tree>)
    requires Spared(log, 0, Preorder(forest))
    ensures AllFinishedBehind(log, forest)
    decreases forest
  {
    hide Preorder;
    if forest != [] {
      SparedParts(log, 0, forest);
      UncalledIsBehind(log, forest[0].kids);
      UncalledIsBehind(log, forest[1..]);
    }
  }

  lemma NoDupSplits(a: seq<nat>, b: seq<nat>)
    requires NoDup(a + b)
    ensures NoDup(a) && NoDup(b) && Apart(a, b)
  {
    var all := a + b;
    assert forall k :: 0 <= k < |a| ==> all[k] == a[k];
    assert forall k :: 0 <= k < |b| ==> all[|a| + k] == b[k];
    assert forall k, l :: 0 <= k < |a| && 0 <= l < |b| ==> a[k] != b[l];
  }

  lemma DistinctParts(forest: seq<Tree>)
    requires forest != [] && NoDup(Preorder(forest))
    ensures var n, below, behind := forest[0].node, Preorder(forest[0].kids), Preorder(forest[1..]);
            NoDup(below) && NoDup(behind) && n !in below && n !in behind && Apart(below, behind)
  {
    hide NoDup;
    var n, below, behind := forest[0].node, Preorder(forest[0].kids), Preorder(forest[1..]);
    NoDupSplits([n] + below, behind);
    NoDupSplits([n], below);
    assert n in [n] && n in [n] + below;
    assert forall x :: x in below ==> x in [n] + below;
  }

  /** The calls a walk adds to the log are for nodes of the forest. */
  predicate AddsOnly(log: seq<Call>, more: seq<Call>, nodes: seq<nat>) {
    log <= more && forall j :: |log| <= j < |more| ==> more[j].node in nodes
  }

  lemma AddsWithin(log: seq<Call>, mid: seq<Call>, more: seq<Call>, a: seq<nat>, b: seq<nat>, c: seq<nat>)
    requires AddsOnly(log, mid, a) && AddsOnly(mid, more, b)
    requires forall x :: x in a || x in b ==> x in c
    ensures AddsOnly(log, more, c)
  {
    forall j | |log| <= j < |more|
      ensures more[j].node in c
    {
      if j < |mid| {
        assert more[j] == mid[j];
      }
    }
  }

  lemma {:induction false} WalkAddsOnly(answer: nat -> Action, forest: seq<Tree>, log: seq<Call>)
    ensures AddsOnly(log, LoggedWalk(answer, forest, log).ctx, Preorder(forest))
    decreases forest
  {
    hide LoggedWalk, Preorder;
    NoneVisited(answer, log);
    if forest != [] {
      var n, kids, rest := forest[0].node, forest[0].kids, forest[1..];
      var begun := log + [Begun(n)];
      var inner := if answer(n) == Proceed then LoggedWalk(answer, kids, begun) else Walked(begun, false);
      LoggedWalkSteps(answer, forest, log);
      if answer(n) == Proceed {
        WalkAddsOnly(answer, kids, begun);
      }
      forall x
        ensures x in Preorder(forest) <==> x == n || x in Preorder(kids) || x in Preorder(rest)
      {
        PreorderParts(forest, x);
      }
      AddsWithin(log, begun, begun, [n], [], Preorder(forest));
      AddsWithin(log, begun, inner.ctx, Preorder(forest), Preorder(kids), Preorder(forest));
      if answer(n) != Halt && !inner.halted {
        if rest == [] {
          AddsWithin(log, inner.ctx, inner.ctx + [Finished(n)], Preorder(forest), [n], Preorder(forest));
        } else {
          WalkAddsOnly(answer, rest, inner.ctx);
          var last := LoggedWalk(answer, rest, inner.ctx).ctx;
          AddsWithin(log, inner.ctx, last, Preorder(forest), Preorder(rest), Preorder(forest));
        }
      }
    }
  }

  /** Nodes that are not among those called for are spared. */
  lemma AddedSpares(log: seq<Call>, more: seq<Call>, nodes: seq<nat>, others: seq<nat>)
    requires AddsOnly(log, more, nodes) && forall x :: x in others ==> x !in nodes
    ensures log <= more && Spared(more, |log|, others)
    ensures Spared(log, 0, others) ==> Spared(more, 0, others)
  {
    if Spared(log, 0, others) {
      assert forall j :: 0 <= j < |log| ==> more[j] == log[j];
    }
  }

  /** A node whose walk is logged from its beginning to its end. */
  lemma FinishedLast(log: seq<Call>, begun: seq<Call>, inner: seq<Call>, t: Tree)
    requires Spared(log, 0, [t.node]) && begun == log + [Begun(t.node)] && AddsOnly(begun, inner, Preorder(t.kids))
    requires t.node !in Preorder(t.kids)
    ensures Finished(t.node) !in inner && FinishedBehind(inner + [Finished(t.node)], t)
  {
    forall j | 0 <= j < |inner|
      ensures inner[j] != Finished(t.node)
    {
      if j < |log| {
        assert inner[j] == begun[j] == log[j];
      } else if j == |log| {
        assert inner[j] == begun[j];
      }
    }
    var all := inner + [Finished(t.node)];
    assert forall i :: 0 <= i < |all| && all[i] == Finished(t.node) ==> i == |inner|;
    assert all[..|inner|] == inner && inner[|log|] == begun[|log|] == Begun(t.node);
  }

  /** Whatever the callbacks answer, no node is finished before it was begun or before anything below it is done with. */
  lemma {:induction false} WalkFinishesBehind(answer: nat -> Action, forest: seq<Tree>, log: seq<Call>)
    requires NoDup(Preorder(forest)) && Spared(log, 0, Preorder(forest))
    ensures AllFinishedBehind(LoggedWalk(answer, forest, log).ctx, forest)
    decreases forest
  {
    hide LoggedWalk, Preorder, Spared, AddsOnly, FinishedBehind, NoDup;
    if forest != [] {
      var t, rest := forest[0], forest[1..];
      var n, below := t.node, Preorder(t.kids);
      var begun := log + [Begun(n)];
      var inner := if answer(n) == Proceed then LoggedWalk(answer, t.kids, begun) else Walked(begun, false);
      DistinctParts(forest);
      SparedParts(log, 0, forest);
      LoggedWalkSteps(answer, forest, log);
      BegunAdds(log, n);
      AddedSpares(log, begun, [n], below);
      AddedSpares(log, begun, [n], Preorder(rest));
      if answer(n) == Proceed {
        WalkFinishesBehind(answer, t.kids, begun);
        WalkAddsOnly(answer, t.kids, begun);
      } else {
        UncalledIsBehind(begun, t.kids);
        AddsNothing(begun, below);
      }
      AddedSpares(begun, inner.ctx, below, Preorder(rest));
      FinishedLast(log, begun, inner.ctx, t);
      NeverFinished(inner.ctx, t);
      if answer(n) == Halt || inner.halted {
        UncalledIsBehind(inner.ctx, rest);
      } else if rest == [] {
        FinishAdds(inner.ctx, n);
        AddedSpares(inner.ctx, inner.ctx + [Finished(n)], [n], below);
        BehindStays(inner.ctx, inner.ctx + [Finished(n)], t.kids);
      } else {
        var last := LoggedWalk(answer, rest, inner.ctx).ctx;
        WalkFinishesBehind(answer, rest, inner.ctx);
        WalkAddsOnly(answer, rest, inner.ctx);
        AddedSpares(inner.ctx, last, Preorder(rest), below);
        AddedSpares(inner.ctx, last, Preorder(rest), [n]);
        BehindStays(inner.ctx, last, t.kids);
        StillUnfinished(inner.ctx, last, t);
      }
    }
  }

  lemma BegunAdds(log: seq<Call>, n: nat)
    ensures AddsOnly(log, log + [Begun(n)], [n])
  {
  }

  lemma FinishAdds(log: seq<Call>, n: nat)
    ensures AddsOnly(log, log + [Finished(n)], [n])
  {
  }

  lemma AddsNothing(log: seq<Call>, nodes: seq<nat>)
    ensures AddsOnly(log, log, nodes)
  {
  }

  lemma NeverFinished(log: seq<Call>, t: Tree)
    requires Finished(t.node) !in log
    ensures FinishedBehind(log, t)
  {
  }

  lemma StillUnfinished(log: seq<Call>, more: seq<Call>, t: Tree)
    requires Finished(t.node) !in log && log <= more && Spared(more, |log|, [t.node])
    ensures FinishedBehind(more, t)
  {
    forall j | 0 <= j < |more|
      ensures more[j] != Finished(t.node)
    {
      if j < |log| {
        assert more[j] == log[j];
      }
    }
  }

  /** So it is for every node below the root of a tree. */
  lemma TreeFinishesBehind(dom: Dom, root: Tree, answer: nat -> Action)
    requires Rooted(dom, root)
    ensures AllFinishedBehind(LoggedWalk(answer, root.kids, []).ctx, root.kids)
  {
    NotBelowItself(dom, root);
    ForestHasNoDup(dom, root.node, root.kids);
    WalkFinishesBehind(answer, root.kids, []);
  }
}

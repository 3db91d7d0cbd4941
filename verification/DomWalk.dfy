/**
 Walking a document tree with two callbacks (resiliparse-rs/src/parse/html/serialize.rs):
 which nodes they are called for, and in which order.
 */
module DomWalk {
  import opened Wrappers
  import opened DomTree
  import opened DomTraversal

  /** What the first callback answers. */
  datatype Action = Proceed | SkipChildren | Halt

  // ------------------------------------------------------------------
  // The walk as a recursion over the tree
  // ------------------------------------------------------------------

  /** The result of a walk and whether it was halted. */
  datatype Walked<S> = Walked(ctx: S, halted: bool)

  /** Walking the children of a node: the second callback sees only those without a next sibling. */
  function WalkForest<S>(begin: (nat, S) -> (S, Action), end: (nat, S) -> S, forest: seq<Tree>, ctx: S): (r: Walked<S>)
    decreases forest
  {
    if forest == [] then Walked(ctx, false)
    else
      var n := forest[0].node;
      var (s, action) := begin(n, ctx);
      if action == Halt then Walked(s, true)
      else
        var below := if action == SkipChildren then Walked(s, false) else WalkForest(begin, end, forest[0].kids, s);
        if below.halted then below
        else if forest[1..] == [] then Walked(end(n, below.ctx), false)
        else WalkForest(begin, end, forest[1..], below.ctx)
  }

  /** What is left to do when the tree of `node` has been walked. */
  function WalkBehind<S>(begin: (nat, S) -> (S, Action), end: (nat, S) -> S, node: nat, frames: seq<Frame>, ctx: S): (r: S)
    decreases |frames|, 0
  {
    if frames == [] then ctx
    else if frames[0].later == [] then WalkBehind(begin, end, frames[0].parent, frames[1..], end(node, ctx))
    else WalkOn(begin, end, frames[0].parent, frames[0].later, frames[1..], ctx)
  }

  /** What is left to do at the first of the trees `here`. */
  function WalkOn<S>(begin: (nat, S) -> (S, Action), end: (nat, S) -> S,
                     parent: nat, here: seq<Tree>, frames: seq<Frame>, ctx: S): (r: S)
    decreases |frames|, 1
  {
    var w := WalkForest(begin, end, here, ctx);
    if w.halted then w.ctx else WalkBehind(begin, end, parent, frames, w.ctx)
  }

  /** The walk takes one node at a time. */
  lemma WalkOnSteps<S>(begin: (nat, S) -> (S, Action), end: (nat, S) -> S,
                       parent: nat, here: seq<Tree>, frames: seq<Frame>, ctx: S)
    requires here != []
    ensures var n := here[0].node;
            var (s, action) := begin(n, ctx);
            var inner := Entered(parent, here, frames);
            WalkOn(begin, end, parent, here, frames, ctx) ==
            if action == Halt then s
            else if here[0].kids != [] && action != SkipChildren then WalkOn(begin, end, n, here[0].kids, inner, s)
            else WalkBehind(begin, end, n, inner, s)
  {
    var inner, n := Entered(parent, here, frames), here[0].node;
    var (s, action) := begin(n, ctx);
    assert inner[1..] == frames && inner[0] == Frame(parent, here[1..]);
    if action != Halt {
      var below := if action == SkipChildren then Walked(s, false) else WalkForest(begin, end, here[0].kids, s);
      if !below.halted {
        WalkTreeEnds(begin, end, parent, here, frames, ctx, below.ctx);
      }
    }
  }

  /** Behind the tree of its first node, a walk goes on as the frames say. */
  lemma WalkTreeEnds<S>(begin: (nat, S) -> (S, Action), end: (nat, S) -> S,
                        parent: nat, here: seq<Tree>, frames: seq<Frame>, ctx: S, below: S)
    requires here != []
    requires var (s, action) := begin(here[0].node, ctx);
             && action != Halt
             && Walked(below, false) ==
                if action == SkipChildren then Walked(s, false) else WalkForest(begin, end, here[0].kids, s)
    ensures WalkOn(begin, end, parent, here, frames, ctx) ==
            WalkBehind(begin, end, here[0].node, Entered(parent, here, frames), below)
  {
    var inner, n := Entered(parent, here, frames), here[0].node;
    assert inner[1..] == frames && inner[0] == Frame(parent, here[1..]);
    if here[1..] == [] {
      assert WalkForest(begin, end, here, ctx) == Walked(end(n, below), false);
    } else {
      assert WalkForest(begin, end, here, ctx) == WalkForest(begin, end, here[1..], below);
    }
  }

  // ------------------------------------------------------------------
  // The walk along the links
  // ------------------------------------------------------------------

  /** Walks below `root` with a cursor that only follows links. */
  method NodeWalk<S>(dom: Dom, root: Option<nat>, begin: (nat, S) -> (S, Action), end: (nat, S) -> S, ctx: S, ghost tree: Tree)
    returns (result: S)
    requires root.Some? ==> Rooted(dom, tree) && tree.node == root.value
    ensures result == if root.Some? then WalkForest(begin, end, tree.kids, ctx).ctx else ctx
  {
    hide Linked, Inside, Clear, Preorder, NodesBehind, At, WalkForest, WalkBehind, WalkOn;
    result := ctx;
    if root.None? {
      return;
    }
    var cursor := dom[root.value].firstChild;
    ghost var parent: nat, here, frames: seq<Frame> := root.value, tree.kids, [];
    StartsAt(dom, tree);
    WalkStarts(begin, end, tree, ctx);
    while cursor.Some?
      invariant At(dom, root.value, parent, here, frames) && cursor == Head(here)
      invariant WalkForest(begin, end, tree.kids, ctx).ctx ==
                if cursor.Some? then WalkOn(begin, end, parent, here, frames, result) else result
      decreases |Preorder(here)| + |NodesBehind(frames)|
    {
      var node: nat := cursor.value;
      Enter(dom, root.value, parent, here, frames);
      WalkOnSteps(begin, end, parent, here, frames, result);
      frames := Entered(parent, here, frames);
      var (s, action) := begin(node, result);
      result := s;
      if action == Halt {
        return;
      }
      if dom[node].firstChild.Some? && action != SkipChildren {
        cursor := dom[node].firstChild;
        parent, here := node, here[0].kids;
        continue;
      }
      InsideAt(dom, root.value, node, here[0].kids, frames);
      ghost var behind := NodesBehind(frames);
      while node != root.value && dom[node].next.None?
        invariant node < |dom| && Inside(dom, root.value, node, frames) && Clear(root.value, frames)
        invariant NodesBehind(frames) == behind
        invariant WalkForest(begin, end, tree.kids, ctx).ctx == WalkBehind(begin, end, node, frames, result)
        decreases |frames|
      {
        Climb(dom, root.value, node, frames);
        WalkClimbs(begin, end, node, frames, result);
        result := end(node, result);
        node := dom[node].parent.value;
        frames := frames[1..];
        InsideTable(dom, root.value, node, frames);
      }
      if node == root.value {
        NothingBehindRoot(dom, root.value, frames);
        WalkEnds(begin, end, node, result);
        return;
      }
      Across(dom, root.value, node, frames);
      WalkCrosses(begin, end, node, frames, result);
      cursor := dom[node].next;
      parent, here, frames := frames[0].parent, frames[0].later, frames[1..];
    }
  }

  lemma StartsAt(dom: Dom, tree: Tree)
    requires Rooted(dom, tree)
    ensures At(dom, tree.node, tree.node, tree.kids, [])
  {
    NotBelowItself(dom, tree);
  }

  lemma WalkStarts<S>(begin: (nat, S) -> (S, Action), end: (nat, S) -> S, tree: Tree, ctx: S)
    ensures WalkOn(begin, end, tree.node, tree.kids, [], ctx) == WalkForest(begin, end, tree.kids, ctx).ctx
    ensures tree.kids == [] ==> WalkForest(begin, end, tree.kids, ctx).ctx == ctx
  {
  }

  lemma WalkClimbs<S>(begin: (nat, S) -> (S, Action), end: (nat, S) -> S, node: nat, frames: seq<Frame>, ctx: S)
    requires frames != [] && frames[0].later == []
    ensures WalkBehind(begin, end, node, frames, ctx) == WalkBehind(begin, end, frames[0].parent, frames[1..], end(node, ctx))
  {
  }

  lemma WalkCrosses<S>(begin: (nat, S) -> (S, Action), end: (nat, S) -> S, node: nat, frames: seq<Frame>, ctx: S)
    requires frames != [] && frames[0].later != []
    ensures WalkBehind(begin, end, node, frames, ctx) ==
            WalkOn(begin, end, frames[0].parent, frames[0].later, frames[1..], ctx)
  {
  }

  lemma WalkEnds<S>(begin: (nat, S) -> (S, Action), end: (nat, S) -> S, node: nat, ctx: S)
    ensures WalkBehind(begin, end, node, [], ctx) == ctx
  {
  }

  // ------------------------------------------------------------------
  // Which calls are made
  // ------------------------------------------------------------------

  datatype Call = Begun(node: nat) | Finished(node: nat)

  /** The walk with callbacks that log their calls, when `answer` tells what the first one answers. */
  function LoggedWalk(answer: nat -> Action, forest: seq<Tree>, log: seq<Call>): (r: Walked<seq<Call>>) {
    WalkForest((n: nat, l: seq<Call>) => (l + [Begun(n)], answer(n)), (n: nat, l: seq<Call>) => l + [Finished(n)], forest, log)
  }

  function Begins(log: seq<Call>): (r: seq<nat>) {
    if log == [] then []
    else Begins(log[..|log| - 1]) + (if log[|log| - 1].Begun? then [log[|log| - 1].node] else [])
  }

  function Finishes(log: seq<Call>): (r: seq<nat>) {
    if log == [] then []
    else Finishes(log[..|log| - 1]) + (if log[|log| - 1].Finished? then [log[|log| - 1].node] else [])
  }

  /** Document order, without what is below nodes that are not gone into. */
  function Visited(answer: nat -> Action, forest: seq<Tree>): (r: seq<nat>)
    decreases forest
  {
    if forest == [] then []
    else
      var n := forest[0].node;
      [n] + (if answer(n) == Proceed then Visited(answer, forest[0].kids) else []) + Visited(answer, forest[1..])
  }

  predicate Halts(answer: nat -> Action, nodes: seq<nat>) {
    nodes != [] && (answer(nodes[0]) == Halt || Halts(answer, nodes[1..]))
  }

  /** The nodes up to and with the first one that halts the walk. */
  function UpToHalt(answer: nat -> Action, nodes: seq<nat>): (r: seq<nat>) {
    if nodes == [] then []
    else if answer(nodes[0]) == Halt then [nodes[0]]
    else [nodes[0]] + UpToHalt(answer, nodes[1..])
  }

  lemma {:induction false} UpToHaltJoins(answer: nat -> Action, a: seq<nat>, b: seq<nat>)
    ensures UpToHalt(answer, a + b) == if Halts(answer, a) then UpToHalt(answer, a) else a + UpToHalt(answer, b)
    ensures Halts(answer, a + b) <==> Halts(answer, a) || Halts(answer, b)
  {
    if a == [] {
      assert a + b == b;
      assert a + UpToHalt(answer, b) == UpToHalt(answer, b);
    } else {
      var c := a + b;
      assert c[0] == a[0] && c[1..] == a[1..] + b;
      UpToHaltJoins(answer, a[1..], b);
      Regroup([a[0]], a[1..], UpToHalt(answer, b));
      assert [a[0]] + a[1..] == a;
    }
  }

  lemma Regroup(a: seq<nat>, b: seq<nat>, c: seq<nat>)
    ensures a + (b + c) == a + b + c
  {
  }

  lemma LogOne(log: seq<Call>, c: Call)
    ensures Begins(log + [c]) == Begins(log) + (if c.Begun? then [c.node] else [])
    ensures Finishes(log + [c]) == Finishes(log) + (if c.Finished? then [c.node] else [])
  {
    assert (log + [c])[..|log|] == log;
  }

  lemma LoggedWalkSteps(answer: nat -> Action, forest: seq<Tree>, log: seq<Call>)
    requires forest != []
    ensures var n := forest[0].node;
            var begun := log + [Begun(n)];
            var inner := if answer(n) == Proceed then LoggedWalk(answer, forest[0].kids, begun) else Walked(begun, false);
            LoggedWalk(answer, forest, log) ==
            if answer(n) == Halt then Walked(begun, true)
            else if inner.halted then inner
            else if forest[1..] == [] then Walked(inner.ctx + [Finished(n)], false)
            else LoggedWalk(answer, forest[1..], inner.ctx)
  {
  }

  lemma VisitedSteps(answer: nat -> Action, forest: seq<Tree>)
    requires forest != []
    ensures var n, rest := forest[0].node, Visited(answer, forest[1..]);
            var below := if answer(n) == Proceed then Visited(answer, forest[0].kids) else [];
            var all := Visited(answer, forest);
            && (Halts(answer, all) <==> answer(n) == Halt || Halts(answer, below) || Halts(answer, rest))
            && UpToHalt(answer, all) ==
               if answer(n) == Halt then [n]
               else if Halts(answer, below) then [n] + UpToHalt(answer, below)
               else [n] + (below + UpToHalt(answer, rest))
  {
    hide Visited, Halts, UpToHalt;
    var n, rest := forest[0].node, Visited(answer, forest[1..]);
    var below := if answer(n) == Proceed then Visited(answer, forest[0].kids) else [];
    VisitedUnfolds(answer, forest);
    HaltsOne(answer, n);
    UpToHaltJoins(answer, [n], below + rest);
    UpToHaltJoins(answer, below, rest);
  }

  lemma VisitedUnfolds(answer: nat -> Action, forest: seq<Tree>)
    requires forest != []
    ensures var below := if answer(forest[0].node) == Proceed then Visited(answer, forest[0].kids) else [];
            Visited(answer, forest) == [forest[0].node] + (below + Visited(answer, forest[1..]))
  {
  }

  lemma HaltsOne(answer: nat -> Action, n: nat)
    ensures (Halts(answer, [n]) <==> answer(n) == Halt) && UpToHalt(answer, [n]) == [n]
  {
    assert [n][1..] == [];
  }

  lemma {:induction false} NoHaltKeepsAll(answer: nat -> Action, nodes: seq<nat>)
    requires !Halts(answer, nodes)
    ensures UpToHalt(answer, nodes) == nodes
  {
    if nodes != [] {
      NoHaltKeepsAll(answer, nodes[1..]);
    }
  }

  /** A walk began the given nodes, up to the first that halts. */
  predicate BeganUpToHalt(answer: nat -> Action, log: seq<Call>, w: Walked<seq<Call>>, nodes: seq<nat>) {
    && Begins(w.ctx) == Begins(log) + UpToHalt(answer, nodes)
    && (w.halted <==> Halts(answer, nodes))
  }

  /** The first callback is called for the visited nodes in document order, up to the first that halts. */
  lemma {:induction false} BeginsAreVisits(answer: nat -> Action, forest: seq<Tree>, log: seq<Call>)
    ensures BeganUpToHalt(answer, log, LoggedWalk(answer, forest, log), Visited(answer, forest))
    decreases forest
  {
    hide Begins, LoggedWalk, Visited, UpToHalt, Halts;
    NoneVisited(answer, log);
    if forest != [] {
      var n, begun := forest[0].node, log + [Begun(forest[0].node)];
      var below := if answer(n) == Proceed then Visited(answer, forest[0].kids) else [];
      var inner := if answer(n) == Proceed then LoggedWalk(answer, forest[0].kids, begun) else Walked(begun, false);
      var rest := Visited(answer, forest[1..]);
      LogOne(log, Begun(n));
      LoggedWalkSteps(answer, forest, log);
      VisitedSteps(answer, forest);
      NothingMore(Begins(begun));
      if answer(n) == Proceed {
        BeginsAreVisits(answer, forest[0].kids, begun);
      }
      if !inner.halted {
        NoHaltKeepsAll(answer, below);
        if forest[1..] == [] {
          LogOne(inner.ctx, Finished(n));
          NothingMore(Begins(inner.ctx));
        } else {
          BeginsAreVisits(answer, forest[1..], inner.ctx);
        }
      }
      JoinsNest(Begins(log), n, UpToHalt(answer, below), UpToHalt(answer, rest));
    }
  }

  lemma JoinsNest(a: seq<nat>, n: nat, b: seq<nat>, c: seq<nat>)
    ensures a + [n] + b == a + ([n] + b) && a + [n] + b + c == a + ([n] + (b + c))
  {
  }

  lemma NothingMore(a: seq<nat>)
    ensures a + [] == a
  {
  }

  lemma NoneVisited(answer: nat -> Action, log: seq<Call>)
    ensures !Halts(answer, []) && UpToHalt(answer, []) == [] && Visited(answer, []) == []
    ensures LoggedWalk(answer, [], log) == Walked(log, false) && Begins(log) + [] == Begins(log)
  {
  }

  // ------------------------------------------------------------------
  // Completed nodes
  // ------------------------------------------------------------------

  /** The nodes whose trees are walked to their end before the walk halts, if it does. */
  function Completed(answer: nat -> Action, forest: seq<Tree>): (r: seq<nat>)
    decreases forest
  {
    if forest == [] || answer(forest[0].node) == Halt then []
    else
      var inside := if answer(forest[0].node) == Proceed then Completed(answer, forest[0].kids) else [];
      if HaltsBelow(answer, forest[0]) then inside
      else inside + [forest[0].node] + Completed(answer, forest[1..])
  }

  /** The walk is halted below a node. */
  predicate HaltsBelow(answer: nat -> Action, t: Tree) {
    answer(t.node) == Proceed && Halts(answer, Visited(answer, t.kids))
  }

  /** The node that halts the walk and those above it, the topmost first; none if the walk is not halted. */
  function HaltPath(answer: nat -> Action, forest: seq<Tree>): (r: seq<nat>)
    decreases forest
  {
    if forest == [] then []
    else if answer(forest[0].node) == Halt then [forest[0].node]
    else if HaltsBelow(answer, forest[0]) then [forest[0].node] + HaltPath(answer, forest[0].kids)
    else HaltPath(answer, forest[1..])
  }

  /** Those without a next sibling. */
  function LastSiblings(dom: Dom, nodes: seq<nat>): (r: seq<nat>) {
    if nodes == [] then []
    else (if IsLast(dom, nodes[0]) then [nodes[0]] else []) + LastSiblings(dom, nodes[1..])
  }

  predicate IsLast(dom: Dom, n: nat) {
    n < |dom| && dom[n].next.None?
  }

  lemma {:induction false} LastSiblingsJoin(dom: Dom, a: seq<nat>, b: seq<nat>)
    ensures LastSiblings(dom, a + b) == LastSiblings(dom, a) + LastSiblings(dom, b)
  {
    hide IsLast;
    if a == [] {
      assert a + b == b;
      assert [] + LastSiblings(dom, b) == LastSiblings(dom, b);
    } else {
      var c := a + b;
      assert c[0] == a[0] && c[1..] == a[1..] + b;
      LastSiblingsJoin(dom, a[1..], b);
      var first := if IsLast(dom, a[0]) then [a[0]] else [];
      Regroup(first, LastSiblings(dom, a[1..]), LastSiblings(dom, b));
    }
  }

  lemma LastSiblingsOne(dom: Dom, n: nat)
    ensures LastSiblings(dom, [n]) == if IsLast(dom, n) then [n] else []
    ensures LastSiblings(dom, []) == []
  {
    assert [n][1..] == [];
  }

  /** The parts of what is completed, siblings included. */
  lemma LastCompleted(dom: Dom, p: nat, answer: nat -> Action, forest: seq<Tree>)
    requires Linked(dom, p, forest) && forest != [] && answer(forest[0].node) != Halt
    ensures var go := answer(forest[0].node) == Proceed;
            var inside := if go then LastSiblings(dom, Completed(answer, forest[0].kids)) else [];
            LastSiblings(dom, Completed(answer, forest)) ==
            if HaltsBelow(answer, forest[0]) then inside
            else inside + (if forest[1..] == [] then [forest[0].node] else LastSiblings(dom, Completed(answer, forest[1..])))
  {
    hide LastSiblings, HaltsBelow;
    var n := forest[0].node;
    var inside, rest := if answer(n) == Proceed then Completed(answer, forest[0].kids) else [], Completed(answer, forest[1..]);
    LastSiblingsOne(dom, n);
    LastSiblingsJoin(dom, inside + [n], rest);
    LastSiblingsJoin(dom, inside, [n]);
    NothingMore(LastSiblings(dom, inside));
    NothingMore(LastSiblings(dom, inside) + [n]);
  }

  lemma LinkedParts(dom: Dom, p: nat, forest: seq<Tree>)
    requires Linked(dom, p, forest) && forest != []
    ensures Linked(dom, forest[0].node, forest[0].kids) && Linked(dom, p, forest[1..])
  {
  }

  /** The second callback is called for the completed nodes without a next sibling, in the order of completion. */
  lemma {:induction false} FinishesAreCompleted(dom: Dom, p: nat, answer: nat -> Action, forest: seq<Tree>, log: seq<Call>)
    requires Linked(dom, p, forest)
    ensures Finishes(LoggedWalk(answer, forest, log).ctx) == Finishes(log) + LastSiblings(dom, Completed(answer, forest))
    decreases forest
  {
    hide Finishes, LoggedWalk, LastSiblings, Completed, Visited, Halts, UpToHalt, Begins, Linked;
    NoneCompleted(dom, answer, log);
    if forest != [] {
      LinkedParts(dom, p, forest);
      var n, begun := forest[0].node, log + [Begun(forest[0].node)];
      var go := answer(n) == Proceed;
      var inner := if go then LoggedWalk(answer, forest[0].kids, begun) else Walked(begun, false);
      LogOne(log, Begun(n));
      LoggedWalkSteps(answer, forest, log);
      NothingMore(Finishes(log));
      if answer(n) != Halt {
        LastCompleted(dom, p, answer, forest);
        if go {
          BeginsAreVisits(answer, forest[0].kids, begun);
          FinishesAreCompleted(dom, n, answer, forest[0].kids, begun);
        }
        var inside := if go then LastSiblings(dom, Completed(answer, forest[0].kids)) else [];
        var rest := LastSiblings(dom, Completed(answer, forest[1..]));
        if !inner.halted {
          if forest[1..] == [] {
            LogOne(inner.ctx, Finished(n));
          } else {
            FinishesAreCompleted(dom, p, answer, forest[1..], inner.ctx);
          }
        }
        Regroup(Finishes(log), inside, [n]);
        Regroup(Finishes(log), inside, rest);
      } else {
        NothingCompleted(answer, forest);
      }
    }
  }

  lemma NoneCompleted(dom: Dom, answer: nat -> Action, log: seq<Call>)
    ensures Completed(answer, []) == [] && LastSiblings(dom, []) == [] && LoggedWalk(answer, [], log) == Walked(log, false)
    ensures Finishes(log) + [] == Finishes(log)
  {
  }

  lemma NothingCompleted(answer: nat -> Action, forest: seq<Tree>)
    requires forest != [] && answer(forest[0].node) == Halt
    ensures Completed(answer, forest) == []
  {
  }

  // ------------------------------------------------------------------
  // Completed, or on the way to the halt
  // ------------------------------------------------------------------

  lemma CountJoins(a: seq<nat>, b: seq<nat>, x: nat)
    ensures Count(a + b, x) == Count(a, x) + Count(b, x) && Count([], x) == 0
  {
  }

  function Count(s: seq<nat>, x: nat): (n: nat) {
    multiset(s)[x]
  }

  lemma {:induction false} HaltPathIffHalts(answer: nat -> Action, forest: seq<Tree>)
    ensures HaltPath(answer, forest) != [] <==> Halts(answer, Visited(answer, forest))
    decreases forest
  {
    hide Visited, Halts, UpToHalt;
    NoneVisited(answer, []);
    if forest != [] {
      VisitedSteps(answer, forest);
      HaltPathIffHalts(answer, forest[1..]);
    }
  }

  /** A chain of children from `p` down, of which exactly the last one halts. */
  predicate LeadsToHalt(dom: Dom, p: nat, answer: nat -> Action, path: seq<nat>)
    decreases |path|
  {
    path != [] ==>
      && path[0] < |dom| && dom[path[0]].parent == Some(p)
      && (answer(path[0]) == Halt <==> |path| == 1)
      && LeadsToHalt(dom, path[0], answer, path[1..])
  }

  /** The path to the halt leads from a child of `p` down to the node that halts. */
  lemma {:induction false} HaltPathLeadsToHalt(dom: Dom, p: nat, answer: nat -> Action, forest: seq<Tree>)
    requires Linked(dom, p, forest)
    ensures LeadsToHalt(dom, p, answer, HaltPath(answer, forest))
    decreases forest
  {
    hide Visited, Halts;
    if forest != [] {
      HaltPathLeadsToHalt(dom, forest[0].node, answer, forest[0].kids);
      HaltPathIffHalts(answer, forest[0].kids);
      HaltPathLeadsToHalt(dom, p, answer, forest[1..]);
      var deeper := HaltPath(answer, forest[0].kids);
      assert ([forest[0].node] + deeper)[1..] == deeper && [forest[0].node][1..] == [];
    }
  }

  /** What is visited up to the halt is either completed or on the path to the halt. */
  lemma {:induction false} VisitedUpToHalt(answer: nat -> Action, forest: seq<Tree>, x: nat)
    ensures Count(UpToHalt(answer, Visited(answer, forest)), x) ==
            Count(Completed(answer, forest), x) + Count(HaltPath(answer, forest), x)
    decreases forest
  {
    hide Visited, Halts, UpToHalt, Count;
    NoneVisited(answer, []);
    CountJoins([], [], x);
    if forest != [] {
      var n := forest[0].node;
      var go := answer(n) == Proceed;
      VisitedSteps(answer, forest);
      VisitedUpToHalt(answer, forest[0].kids, x);
      VisitedUpToHalt(answer, forest[1..], x);
      HaltPathIffHalts(answer, forest[0].kids);
      var visits := if go then Visited(answer, forest[0].kids) else [];
      var rest := UpToHalt(answer, Visited(answer, forest[1..]));
      if !Halts(answer, visits) {
        NoHaltKeepsAll(answer, visits);
      }
      CountJoins([n], UpToHalt(answer, visits), x);
      CountJoins([n], visits + rest, x);
      CountJoins(visits, rest, x);
      CountJoins([n], HaltPath(answer, forest[0].kids), x);
      var inside := if go then Completed(answer, forest[0].kids) else [];
      CountJoins(inside + [n], Completed(answer, forest[1..]), x);
      CountJoins(inside, [n], x);
    }
  }

  lemma {:induction false} NoDupCounts(s: seq<nat>, x: nat)
    requires NoDup(s)
    ensures Count(s, x) <= 1
  {
    if s != [] {
      var rest := s[1..];
      assert forall i :: 0 <= i < |rest| ==> rest[i] == s[i + 1];
      NoDupCounts(rest, x);
      assert s[0] !in rest;
      assert s == [s[0]] + rest;
    }
  }

  lemma CountsNoDup(s: seq<nat>)
    requires forall x :: Count(s, x) <= 1
    ensures NoDup(s)
  {
    forall i, j | 0 <= i < j < |s|
      ensures s[i] != s[j]
    {
      assert s == s[..j] + s[j..];
      CountJoins(s[..j], s[j..], s[j]);
      assert s[..j][i] == s[i] && s[j..][0] == s[j];
      InCounts(s[..j], s[i]);
      InCounts(s[j..], s[j]);
    }
  }

  lemma {:induction false} UpToHaltIsPrefix(answer: nat -> Action, nodes: seq<nat>)
    ensures UpToHalt(answer, nodes) <= nodes
  {
    if nodes != [] {
      UpToHaltIsPrefix(answer, nodes[1..]);
    }
  }

  lemma {:induction false} LastSiblingsCount(dom: Dom, nodes: seq<nat>, x: nat)
    ensures Count(LastSiblings(dom, nodes), x) == if IsLast(dom, x) then Count(nodes, x) else 0
  {
    if nodes != [] {
      LastSiblingsCount(dom, nodes[1..], x);
      assert nodes == [nodes[0]] + nodes[1..];
      CountJoins([nodes[0]], LastSiblings(dom, nodes[1..]), x);
      assert [] + LastSiblings(dom, nodes[1..]) == LastSiblings(dom, nodes[1..]);
    }
  }

  /** No node is visited twice. */
  lemma {:induction false} VisitedOnce(answer: nat -> Action, forest: seq<Tree>)
    requires NoDup(Preorder(forest))
    ensures NoDup(Visited(answer, forest)) && forall x :: x in Visited(answer, forest) ==> x in Preorder(forest)
    decreases forest
  {
    if forest != [] {
      var n, kids, rest := forest[0].node, forest[0].kids, forest[1..];
      PartsHaveNoDup(n, Preorder(kids), Preorder(rest));
      VisitedOnce(answer, kids);
      VisitedOnce(answer, rest);
      var below := if answer(n) == Proceed then Visited(answer, kids) else [];
      NoDupJoins([n], below);
      NoDupJoins([n] + below, Visited(answer, rest));
    }
  }

  lemma PartsHaveNoDup(n: nat, s: seq<nat>, t: seq<nat>)
    requires NoDup([n] + s + t)
    ensures NoDup(s) && NoDup(t) && Apart(s, t) && n !in s && n !in t
  {
    var u := [n] + s + t;
    assert forall i :: 0 <= i < |s| ==> u[i + 1] == s[i];
    assert forall i :: 0 <= i < |t| ==> u[i + 1 + |s|] == t[i];
    assert u[0] == n;
  }

  /** The second callback is called for `x`, for which it may be called at most once. */
  lemma FinishedIff(dom: Dom, tree: Tree, answer: nat -> Action, x: nat)
    requires Rooted(dom, tree)
    ensures var w, visits := LoggedWalk(answer, tree.kids, []), Visited(answer, tree.kids);
            && Count(Finishes(w.ctx), x) <= 1
            && (x in Finishes(w.ctx) <==>
                  x in UpToHalt(answer, visits) && x !in HaltPath(answer, tree.kids) && IsLast(dom, x))
  {
    hide LoggedWalk, Completed, HaltPath, Visited, UpToHalt, Halts, Preorder, NoDup, Finishes, LastSiblings;
    var w, visits := LoggedWalk(answer, tree.kids, []), Visited(answer, tree.kids);
    VisitsHaveNoDup(dom, tree, answer);
    NoDupCounts(UpToHalt(answer, visits), x);
    VisitedUpToHalt(answer, tree.kids, x);
    FinishesAreCompleted(dom, tree.node, answer, tree.kids, []);
    LogNothing(LastSiblings(dom, Completed(answer, tree.kids)));
    LastSiblingsCount(dom, Completed(answer, tree.kids), x);
    InCounts(Finishes(w.ctx), x);
    InCounts(UpToHalt(answer, visits), x);
    InCounts(HaltPath(answer, tree.kids), x);
  }

  lemma InCounts(s: seq<nat>, x: nat)
    ensures x in s <==> Count(s, x) > 0
  {
    assert x in s <==> x in multiset(s);
  }

  lemma LogNothing(s: seq<nat>)
    ensures Begins([]) == [] && Finishes([]) == [] && [] + s == s
  {
  }

  lemma VisitsHaveNoDup(dom: Dom, tree: Tree, answer: nat -> Action)
    requires Rooted(dom, tree)
    ensures var visits := Visited(answer, tree.kids); NoDup(visits) && NoDup(UpToHalt(answer, visits))
  {
    hide Visited, UpToHalt;
    NotBelowItself(dom, tree);
    ForestHasNoDup(dom, tree.node, tree.kids);
    VisitedOnce(answer, tree.kids);
    UpToHaltIsPrefix(answer, Visited(answer, tree.kids));
  }

  /**
   The calls of a walk from `root`, halted or not. The first callback sees the
   root's descendants in document order, each once, without what is below nodes
   not gone into, up to the first that halts. The second one sees, each once,
   those of them without a next sibling whose trees were completed: all but the
   node that halts and those above it, which form a chain of children from the root.
   */
  lemma WalkCalls(dom: Dom, tree: Tree, answer: nat -> Action)
    requires Rooted(dom, tree)
    ensures var w, visits := LoggedWalk(answer, tree.kids, []), Visited(answer, tree.kids);
            && Begins(w.ctx) == UpToHalt(answer, visits) && (w.halted <==> Halts(answer, visits)) && NoDup(visits)
            && NoDup(Finishes(w.ctx))
            && LeadsToHalt(dom, tree.node, answer, HaltPath(answer, tree.kids))
            && (forall x: nat :: x in Finishes(w.ctx) <==>
                  x in UpToHalt(answer, visits) && x !in HaltPath(answer, tree.kids) && IsLast(dom, x))
  {
    hide LoggedWalk, HaltPath, Visited, UpToHalt, Halts, Preorder, NoDup, Count, Begins, Finishes;
    var w, visits := LoggedWalk(answer, tree.kids, []), Visited(answer, tree.kids);
    BeginsAreVisits(answer, tree.kids, []);
    LogNothing(UpToHalt(answer, visits));
    HaltPathLeadsToHalt(dom, tree.node, answer, tree.kids);
    VisitsHaveNoDup(dom, tree, answer);
    forall x: nat
      ensures Count(Finishes(w.ctx), x) <= 1
      ensures x in Finishes(w.ctx) <==>
                x in UpToHalt(answer, visits) && x !in HaltPath(answer, tree.kids) && IsLast(dom, x)
    {
      FinishedIff(dom, tree, answer, x);
    }
    CountsNoDup(Finishes(w.ctx));
  }
}

/**
 Walking a document tree along its links (resiliparse-rs/src/parse/html/dom/iter.rs,
 serialize.rs), proved against the recursion over the tree.
 */
module DomTraversal {
  import opened Wrappers
  import opened DomTree

  // ------------------------------------------------------------------
  // Where a cursor stands
  // ------------------------------------------------------------------

  /** What follows a node under its parent, for the node itself and each ancestor below the root. */
  datatype Frame = Frame(parent: nat, later: seq<Tree>)

  /** The frames say what is to the right of `node` on the way up to the root. */
  ghost predicate Inside(dom: Dom, root: nat, node: nat, frames: seq<Frame>)
    decreases |frames|
  {
    && node < |dom| && (node == root <==> frames == [])
    && (frames != [] ==>
          && dom[node].parent == Some(frames[0].parent) && dom[node].next == Head(frames[0].later)
          && Linked(dom, frames[0].parent, frames[0].later)
          && Inside(dom, root, frames[0].parent, frames[1..]))
  }

  /** The trees `here` are the last children of `parent`, and the frames say where that node is. */
  ghost predicate At(dom: Dom, root: nat, parent: nat, here: seq<Tree>, frames: seq<Frame>) {
    Linked(dom, parent, here) && Inside(dom, root, parent, frames) && root !in Preorder(here) && Clear(root, frames)
  }

  /** The root does not come again behind the cursor. */
  predicate Clear(root: nat, frames: seq<Frame>) {
    forall i :: 0 <= i < |frames| ==> root !in Preorder(frames[i].later)
  }

  /** All nodes the frames still hold. */
  function NodesBehind(frames: seq<Frame>): (r: seq<nat>) {
    if frames == [] then [] else Preorder(frames[0].later) + NodesBehind(frames[1..])
  }

  /** The node `here` begins with has its children at hand, and its siblings in a frame of their own. */
  function Entered(parent: nat, here: seq<Tree>, frames: seq<Frame>): (r: seq<Frame>)
    requires here != []
  {
    [Frame(parent, here[1..])] + frames
  }

  lemma Enter(dom: Dom, root: nat, parent: nat, here: seq<Tree>, frames: seq<Frame>)
    requires At(dom, root, parent, here, frames) && here != []
    ensures At(dom, root, here[0].node, here[0].kids, Entered(parent, here, frames))
    ensures here[0].node < |dom| && dom[here[0].node].firstChild == Head(here[0].kids)
    ensures Preorder(here) + NodesBehind(frames) ==
            [here[0].node] + Preorder(here[0].kids) + NodesBehind(Entered(parent, here, frames))
  {
    hide Linked, Preorder, NodesBehind, Inside;
    LinkedFirst(dom, parent, here);
    PreorderFirst(root, here);
    EnterInside(dom, root, parent, here, frames);
    EnterNodes(parent, here, frames);
  }

  lemma LinkedFirst(dom: Dom, parent: nat, here: seq<Tree>)
    requires Linked(dom, parent, here) && here != []
    ensures here[0].node < |dom| && dom[here[0].node] == Links(Head(here[0].kids), Head(here[1..]), Some(parent))
    ensures Linked(dom, here[0].node, here[0].kids) && Linked(dom, parent, here[1..])
  {
  }

  lemma PreorderFirst(root: nat, here: seq<Tree>)
    requires here != []
    ensures root !in Preorder(here) <==>
            root != here[0].node && root !in Preorder(here[0].kids) && root !in Preorder(here[1..])
  {
  }

  lemma EnterInside(dom: Dom, root: nat, parent: nat, here: seq<Tree>, frames: seq<Frame>)
    requires Linked(dom, parent, here) && Inside(dom, root, parent, frames) && here != [] && here[0].node != root
    ensures Inside(dom, root, here[0].node, Entered(parent, here, frames))
  {
    assert Entered(parent, here, frames)[1..] == frames;
  }

  lemma EnterNodes(parent: nat, here: seq<Tree>, frames: seq<Frame>)
    requires here != []
    ensures Preorder(here) + NodesBehind(frames) ==
            [here[0].node] + Preorder(here[0].kids) + NodesBehind(Entered(parent, here, frames))
  {
    assert Entered(parent, here, frames)[1..] == frames;
  }

  /** A last sibling is left for its parent. */
  lemma Climb(dom: Dom, root: nat, node: nat, frames: seq<Frame>)
    requires Inside(dom, root, node, frames) && Clear(root, frames) && node != root && dom[node].next.None?
    ensures frames != [] && dom[node].parent == Some(frames[0].parent) && frames[0].later == []
    ensures Inside(dom, root, frames[0].parent, frames[1..]) && Clear(root, frames[1..])
    ensures NodesBehind(frames[1..]) == NodesBehind(frames)
  {
    assert [] + NodesBehind(frames[1..]) == NodesBehind(frames[1..]);
  }

  /** The next sibling is the first of those the innermost frame holds. */
  lemma Across(dom: Dom, root: nat, node: nat, frames: seq<Frame>)
    requires Inside(dom, root, node, frames) && Clear(root, frames) && node != root && dom[node].next.Some?
    ensures frames != [] && frames[0].later != [] && dom[node].next == Some(frames[0].later[0].node)
    ensures At(dom, root, frames[0].parent, frames[0].later, frames[1..])
    ensures NodesBehind(frames) == Preorder(frames[0].later) + NodesBehind(frames[1..])
  {
    hide Linked, Preorder;
  }

  /** The cursor is at `node`, and the nodes of `todo` are still to come. */
  ghost predicate Cursor(dom: Dom, root: nat, node: nat, kids: seq<Tree>, frames: seq<Frame>, todo: seq<nat>) {
    && node < |dom| && dom[node].firstChild == Head(kids) && At(dom, root, node, kids, frames)
    && todo == [node] + Preorder(kids) + NodesBehind(frames)
  }

  /** The tree of `node` is done, and the nodes of `todo` are still to come. */
  ghost predicate Leaving(dom: Dom, root: nat, node: nat, frames: seq<Frame>, todo: seq<nat>) {
    node < |dom| && Inside(dom, root, node, frames) && Clear(root, frames) && todo == NodesBehind(frames)
  }

  lemma CursorDescends(dom: Dom, root: nat, node: nat, kids: seq<Tree>, frames: seq<Frame>, todo: seq<nat>)
    requires Cursor(dom, root, node, kids, frames, todo) && dom[node].firstChild.Some?
    ensures kids != [] && dom[node].firstChild == Some(kids[0].node)
    ensures Cursor(dom, root, kids[0].node, kids[0].kids, Entered(node, kids, frames), todo[1..])
  {
    hide Linked, Preorder, Inside, NodesBehind, Clear, At, Entered;
    Enter(dom, root, node, kids, frames);
    assert todo == [node] + (Preorder(kids) + NodesBehind(frames));
  }

  lemma CursorLeaves(dom: Dom, root: nat, node: nat, kids: seq<Tree>, frames: seq<Frame>, todo: seq<nat>)
    requires Cursor(dom, root, node, kids, frames, todo) && dom[node].firstChild.None?
    ensures Leaving(dom, root, node, frames, todo[1..])
  {
    hide Linked, Inside, NodesBehind, Clear;
    assert todo == [node] + NodesBehind(frames);
  }

  lemma LeavingClimbs(dom: Dom, root: nat, node: nat, frames: seq<Frame>, todo: seq<nat>)
    requires Leaving(dom, root, node, frames, todo) && node != root && dom[node].next.None?
    ensures frames != [] && dom[node].parent == Some(frames[0].parent)
    ensures Leaving(dom, root, frames[0].parent, frames[1..], todo)
  {
    hide Linked, Clear, NodesBehind;
    Climb(dom, root, node, frames);
  }

  lemma LeavingRoot(dom: Dom, root: nat, frames: seq<Frame>, todo: seq<nat>)
    requires Leaving(dom, root, root, frames, todo)
    ensures todo == []
  {
    NothingBehindRoot(dom, root, frames);
  }

  lemma LeavingCrosses(dom: Dom, root: nat, node: nat, frames: seq<Frame>, todo: seq<nat>)
    requires Leaving(dom, root, node, frames, todo) && node != root && dom[node].next.Some?
    ensures frames != [] && frames[0].later != [] && dom[node].next == Some(frames[0].later[0].node)
    ensures var parent, here := frames[0].parent, frames[0].later;
            Cursor(dom, root, here[0].node, here[0].kids, Entered(parent, here, frames[1..]), todo)
  {
    hide Linked, Preorder, Inside, NodesBehind, Clear, At, Entered;
    Across(dom, root, node, frames);
    Enter(dom, root, frames[0].parent, frames[0].later, frames[1..]);
  }

  // ------------------------------------------------------------------
  // The iterator
  // ------------------------------------------------------------------

  class NodeIterator {
    const dom: Dom
    const root: Option<nat>
    var nextNode: Option<nat>
    ghost var kids: seq<Tree>
    ghost var frames: seq<Frame>

    ghost predicate Valid()
      reads this
    {
      nextNode.Some? ==>
        && root.Some? && nextNode.value < |dom| && dom[nextNode.value].firstChild == Head(kids)
        && At(dom, root.value, nextNode.value, kids, frames)
    }

    /** The nodes that are still to come. */
    ghost function Todo(): seq<nat>
      reads this
    {
      if nextNode.None? then [] else [nextNode.value] + Preorder(kids) + NodesBehind(frames)
    }

    constructor (dom: Dom, root: Option<nat>, ghost tree: Tree)
      requires root.Some? ==> Rooted(dom, tree) && tree.node == root.value
      ensures Valid() && this.dom == dom && this.root == root
      ensures Todo() == if root.Some? then Nodes(tree) else []
    {
      this.dom := dom;
      this.root := root;
      nextNode := root;
      kids, frames := tree.kids, [];
      new;
      if root.Some? {
        NotBelowItself(dom, tree);
      }
    }

    /** Returns the node the cursor is at and moves the cursor on. */
    method Next() returns (r: Option<nat>)
      requires Valid()
      modifies this
      ensures Valid()
      ensures if old(Todo()) == [] then r == None && Todo() == []
              else r == Some(old(Todo())[0]) && Todo() == old(Todo())[1..]
    {
      hide Linked, Inside, Clear, Preorder, NodesBehind, At, Entered, Cursor, Leaving;
      if nextNode.None? || root.None? {
        return None;
      }
      r := nextNode;
      var node: nat := nextNode.value;
      ghost var todo := Todo();
      IsCursor(todo);
      if dom[node].firstChild.Some? {
        CursorDescends(dom, root.value, node, kids, frames, todo);
        nextNode := dom[node].firstChild;
        frames := Entered(node, kids, frames);
        kids := kids[0].kids;
        CursorIsValid(todo[1..]);
        return;
      }
      CursorLeaves(dom, root.value, node, kids, frames, todo);
      while node != root.value && dom[node].next.None?
        invariant node < |dom| && Leaving(dom, root.value, node, frames, todo[1..])
        decreases |frames|
      {
        LeavingClimbs(dom, root.value, node, frames, todo[1..]);
        node := dom[node].parent.value;
        frames := frames[1..];
        LeavingTable(dom, root.value, node, frames, todo[1..]);
      }
      if node == root.value {
        LeavingRoot(dom, root.value, frames, todo[1..]);
        nextNode := None;
        return;
      }
      LeavingCrosses(dom, root.value, node, frames, todo[1..]);
      nextNode := dom[node].next;
      kids := frames[0].later[0].kids;
      frames := Entered(frames[0].parent, frames[0].later, frames[1..]);
      CursorIsValid(todo[1..]);
    }

    lemma IsCursor(todo: seq<nat>)
      requires Valid() && nextNode.Some? && todo == Todo()
      ensures root.Some? && nextNode.value < |dom| && Cursor(dom, root.value, nextNode.value, kids, frames, todo)
      ensures todo != [] && todo[0] == nextNode.value
    {
      hide At, Preorder, NodesBehind;
    }

    lemma CursorIsValid(todo: seq<nat>)
      requires root.Some? && nextNode.Some? && Cursor(dom, root.value, nextNode.value, kids, frames, todo)
      ensures Valid() && Todo() == todo
    {
      hide At, Preorder, NodesBehind;
    }
  }

  lemma LeavingTable(dom: Dom, root: nat, node: nat, frames: seq<Frame>, todo: seq<nat>)
    requires Leaving(dom, root, node, frames, todo)
    ensures node < |dom|
  {
  }

  lemma InsideAt(dom: Dom, root: nat, node: nat, kids: seq<Tree>, frames: seq<Frame>)
    requires At(dom, root, node, kids, frames)
    ensures Inside(dom, root, node, frames) && Clear(root, frames) && node < |dom|
  {
  }

  lemma InsideTable(dom: Dom, root: nat, node: nat, frames: seq<Frame>)
    requires Inside(dom, root, node, frames)
    ensures node < |dom|
  {
  }

  lemma NothingBehindRoot(dom: Dom, root: nat, frames: seq<Frame>)
    requires Inside(dom, root, root, frames)
    ensures frames == [] && NodesBehind(frames) == []
  {
  }

  lemma NoNodes()
    ensures NoDup([])
  {
  }

  /** Iterating from a root yields the nodes of its tree, each once and in document order. */
  method CollectNodes(dom: Dom, root: Option<nat>, ghost tree: Tree) returns (nodes: seq<nat>)
    requires root.Some? ==> Rooted(dom, tree) && tree.node == root.value
    ensures nodes == if root.Some? then Nodes(tree) else []
    ensures NoDup(nodes)
  {
    hide Preorder, NodesBehind, Nodes, NoDup, Rooted, NodeIterator.Valid, NodeIterator.Todo;
    var it := new NodeIterator(dom, root, tree);
    NoNodes();
    if root.Some? {
      TreeHasNoDup(dom, tree);
    }
    nodes := [];
    while true
      invariant it.Valid() && nodes + it.Todo() == (if root.Some? then Nodes(tree) else [])
      decreases |it.Todo()|
    {
      var n := it.Next();
      if n.None? {
        break;
      }
      nodes := nodes + [n.value];
    }
  }
}

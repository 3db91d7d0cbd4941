/**
 A document tree as its links: every node knows its first child, its next sibling
 and its parent. The tree such links stand for is unique, and has no node twice.
 */
module DomTree {
  import opened Wrappers

  /** A pointer to a node is an index into the table of nodes; None is null. */
  datatype Links = Links(firstChild: Option<nat>, next: Option<nat>, parent: Option<nat>)

  type Dom = seq<Links>

  datatype Tree = Tree(node: nat, kids: seq<Tree>)

  function Head(forest: seq<Tree>): Option<nat> {
    if forest == [] then None else Some(forest[0].node)
  }

  /** The links below `parent` stand for the trees in `forest`. */
  ghost predicate Linked(dom: Dom, parent: nat, forest: seq<Tree>)
    decreases forest
  {
    forest != [] ==>
      var Tree(n, kids) := forest[0];
      && n < |dom| && dom[n] == Links(Head(kids), Head(forest[1..]), Some(parent))
      && Linked(dom, n, kids)
      && Linked(dom, parent, forest[1..])
  }

  /** The tree at `t.node`; what is around it does not matter. */
  ghost predicate Rooted(dom: Dom, t: Tree) {
    t.node < |dom| && dom[t.node].firstChild == Head(t.kids) && Linked(dom, t.node, t.kids)
  }

  function Preorder(forest: seq<Tree>): (r: seq<nat>)
    decreases forest
  {
    if forest == [] then [] else [forest[0].node] + Preorder(forest[0].kids) + Preorder(forest[1..])
  }

  // ------------------------------------------------------------------
  // Links determine the tree
  // ------------------------------------------------------------------

  lemma {:induction false} SameHeadSameForest(dom: Dom, p: nat, q: nat, f: seq<Tree>, g: seq<Tree>)
    requires Linked(dom, p, f) && Linked(dom, q, g) && Head(f) == Head(g)
    ensures f == g
    decreases f
  {
    if f != [] {
      SameHeadSameForest(dom, f[0].node, g[0].node, f[0].kids, g[0].kids);
      SameHeadSameForest(dom, p, q, f[1..], g[1..]);
      assert f == [f[0]] + f[1..] && g == [g[0]] + g[1..];
    }
  }

  /** The links of a root stand for one tree only. */
  lemma TreeIsUnique(dom: Dom, t: Tree, u: Tree)
    requires Rooted(dom, t) && Rooted(dom, u) && t.node == u.node
    ensures t == u
  {
    SameHeadSameForest(dom, t.node, u.node, t.kids, u.kids);
  }

  // ------------------------------------------------------------------
  // No node twice
  // ------------------------------------------------------------------

  function Size(forest: seq<Tree>): (n: nat)
    decreases forest
  {
    if forest == [] then 0 else 1 + Size(forest[0].kids) + Size(forest[1..])
  }

  /** The tree of a node that occurs in a forest. */
  lemma {:induction false} Subtree(dom: Dom, p: nat, f: seq<Tree>, x: nat) returns (t: Tree)
    requires Linked(dom, p, f) && x in Preorder(f)
    ensures t.node == x && Rooted(dom, t) && Size(t.kids) < Size(f)
    decreases f
  {
    if x == f[0].node {
      t := f[0];
    } else if x in Preorder(f[0].kids) {
      t := Subtree(dom, f[0].node, f[0].kids, x);
    } else {
      t := Subtree(dom, p, f[1..], x);
    }
  }

  /** A node is not below itself. */
  lemma NotBelowItself(dom: Dom, t: Tree)
    requires Rooted(dom, t)
    ensures t.node !in Preorder(t.kids)
  {
    if t.node in Preorder(t.kids) {
      var u := Subtree(dom, t.node, t.kids, t.node);
      TreeIsUnique(dom, t, u);
    }
  }

  /** The parent of a node in a forest is in the forest, too, and has more below it, unless it is `p`. */
  lemma {:induction false} ParentInForest(dom: Dom, p: nat, f: seq<Tree>, x: nat) returns (y: nat)
    requires Linked(dom, p, f) && x in Preorder(f)
    ensures x < |dom| && dom[x].parent == Some(y)
    ensures y in Preorder(f) || (y == p && exists i :: 0 <= i < |f| && f[i].node == x)
    decreases f
  {
    if x == f[0].node {
      y := p;
    } else if x in Preorder(f[0].kids) {
      y := ParentInForest(dom, f[0].node, f[0].kids, x);
    } else {
      y := ParentInForest(dom, p, f[1..], x);
      if y !in Preorder(f[1..]) {
        var i :| 0 <= i < |f[1..]| && f[1..][i].node == x;
        assert f[i + 1].node == x;
      }
    }
  }

  predicate NoDup(s: seq<nat>) {
    forall i, j :: 0 <= i < j < |s| ==> s[i] != s[j]
  }

  predicate Apart(s: seq<nat>, t: seq<nat>) {
    forall x :: x in s ==> x !in t
  }

  lemma {:induction false} LinkedSuffix(dom: Dom, p: nat, f: seq<Tree>, i: nat)
    requires Linked(dom, p, f) && i <= |f|
    ensures Linked(dom, p, f[i..])
  {
    if i > 0 {
      LinkedSuffix(dom, p, f[1..], i - 1);
      assert f[1..][i - 1..] == f[i..];
    } else {
      assert f[0..] == f;
    }
  }

  /** A node does not come again among its later siblings or below them. */
  lemma NotAmongSiblings(dom: Dom, p: nat, f: seq<Tree>)
    requires Linked(dom, p, f) && f != [] && p !in Preorder(f)
    ensures f[0].node !in Preorder(f[1..])
  {
    var x := f[0].node;
    if x in Preorder(f[1..]) {
      var y := ParentInForest(dom, p, f[1..], x);
      var i :| 0 <= i < |f[1..]| && f[1..][i].node == x;
      LinkedSuffix(dom, p, f, i + 1);
      SameHeadSameForest(dom, p, p, f, f[i + 1..]);
    }
  }

  /** What hangs below a node outside another forest stays outside of it. */
  lemma {:induction false} BelowIsApart(dom: Dom, q: nat, g: seq<Tree>, p: nat, f: seq<Tree>)
    requires Linked(dom, q, g) && Linked(dom, p, f)
    requires q != p && q !in Preorder(f) && p !in Preorder(g)
    ensures Apart(Preorder(g), Preorder(f))
    decreases g
  {
    if g != [] {
      var x := g[0].node;
      if x in Preorder(f) {
        var y := ParentInForest(dom, p, f, x);
      }
      BelowIsApart(dom, x, g[0].kids, p, f);
      BelowIsApart(dom, q, g[1..], p, f);
    }
  }

  lemma NoDupJoins(s: seq<nat>, t: seq<nat>)
    requires NoDup(s) && NoDup(t) && Apart(s, t)
    ensures NoDup(s + t)
  {
    var u := s + t;
    forall i, j | 0 <= i < j < |u|
      ensures u[i] != u[j]
    {
      if i < |s| <= j {
        assert s[i] in s && t[j - |s|] in t;
      }
    }
  }

  lemma {:induction false} ForestHasNoDup(dom: Dom, p: nat, f: seq<Tree>)
    requires Linked(dom, p, f) && p !in Preorder(f)
    ensures NoDup(Preorder(f))
    decreases f
  {
    if f != [] {
      var x, kids, rest := f[0].node, f[0].kids, f[1..];
      NotBelowItself(dom, f[0]);
      NotAmongSiblings(dom, p, f);
      BelowIsApart(dom, x, kids, p, rest);
      ForestHasNoDup(dom, x, kids);
      ForestHasNoDup(dom, p, rest);
      NoDupJoins([x], Preorder(kids));
      NoDupJoins([x] + Preorder(kids), Preorder(rest));
    }
  }

  /** The nodes of a tree, the root first. */
  function Nodes(t: Tree): (r: seq<nat>) {
    [t.node] + Preorder(t.kids)
  }

  /** The tree that the links of a root stand for has no node twice. */
  lemma TreeHasNoDup(dom: Dom, t: Tree)
    requires Rooted(dom, t)
    ensures NoDup(Nodes(t))
  {
    NotBelowItself(dom, t);
    ForestHasNoDup(dom, t.node, t.kids);
    NoDupJoins([t.node], Preorder(t.kids));
  }

  /** In document order a node is followed by its first child, or, if it has none, by its next sibling. */
  lemma {:induction false} OrderByLinks(dom: Dom, p: nat, f: seq<Tree>, i: nat)
    requires Linked(dom, p, f) && i < |Preorder(f)|
    ensures var r := Preorder(f);
            && r[0] == f[0].node && r[i] < |dom|
            && (dom[r[i]].firstChild.Some? ==> i + 1 < |r| && r[i + 1] == dom[r[i]].firstChild.value)
            && (dom[r[i]].firstChild.None? && dom[r[i]].next.Some? ==> i + 1 < |r| && r[i + 1] == dom[r[i]].next.value)
    decreases f
  {
    var kids, rest := f[0].kids, f[1..];
    var below, behind := Preorder(kids), Preorder(rest);
    var r := Preorder(f);
    assert r == [f[0].node] + below + behind;
    if i == 0 {
      assert kids != [] ==> below[0] == kids[0].node;
      assert rest != [] ==> behind[0] == rest[0].node;
    } else if i <= |below| {
      OrderByLinks(dom, f[0].node, kids, i - 1);
      assert r[i] == below[i - 1] && (i < |below| ==> r[i + 1] == below[i]);
    } else {
      OrderByLinks(dom, p, rest, i - 1 - |below|);
      assert forall j :: 0 <= j < |behind| ==> r[1 + |below| + j] == behind[j];
    }
  }
}

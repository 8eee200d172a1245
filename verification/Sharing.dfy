/** What code that only reads sees below a node, whoever owns the nodes: the
    children of a reference node are those of the node it refers to. */
module Sharing {
  import opened Nodes

  /** The children of `parent`, as a walk along `next` meets them, and their
      names. */
  ghost predicate Lists(parent: Node, ks: seq<Tree>)
    reads parent, AllObjects(ks)
  {
    parent.child == Head(ks, null) && Line(ks)
  }

  ghost predicate Line(ks: seq<Tree>)
    reads AllObjects(ks)
    decreases ks
  {
    ks == [] || (
      assert ks[0].node in Objects(ks[0]);
      && ks[0].node.next == Head(ks[1..], null)
      && BlockIs(ks[0].node.name, ks[0].data.key)
      && Line(ks[1..]))
  }

  /** The heap below `t.node`, read through references, is `t`: `t` is drawn as
      if every node owned what it shows. */
  ghost predicate Shows(t: Tree)
    reads Objects(t)
    decreases t
  {
    && !t.data.isRef
    && t.node.kind == t.data.kind
    && t.node.num == t.data.num
    && t.node.dec == t.data.dec
    && BlockIs(t.node.name, t.data.key)
    && BlockIs(t.node.valuestring, t.data.str)
    && t.node.child == Head(t.kids, null)
    && Row(t.kids)
  }

  ghost predicate Row(ks: seq<Tree>)
    reads AllObjects(ks)
    decreases ks
  {
    ks == [] || (
      assert ks[0].node in Objects(ks[0]);
      && ks[0].node.next == Head(ks[1..], null)
      && Shows(ks[0])
      && Row(ks[1..]))
  }

  // ------------------------------------------------------- who sees what

  lemma {:induction false} LineAt(ks: seq<Tree>, i: nat)
    requires Line(ks) && i < |ks|
    ensures ks[i].node.next == Head(ks[i + 1..], null)
    ensures BlockIs(ks[i].node.name, ks[i].data.key)
  {
    if i > 0 {
      LineAt(ks[1..], i - 1);
      assert ks[1..][i..] == ks[i + 1..];
    }
  }

  lemma {:induction false} RowAt(ks: seq<Tree>, i: nat)
    requires Row(ks) && i < |ks|
    ensures ks[i].node.next == Head(ks[i + 1..], null)
    ensures Shows(ks[i]) && Objects(ks[i]) <= AllObjects(ks)
  {
    if i > 0 {
      RowAt(ks[1..], i - 1);
      assert ks[1..][i..] == ks[i + 1..];
    }
  }

  lemma {:induction false} SegLine(prev: Node?, ks: seq<Tree>)
    requires Seg(prev, ks, null)
    ensures Line(ks)
    decreases ks
  {
    if ks != [] {
      SegLine(ks[0].node, ks[1..]);
    }
  }

  lemma {:induction false} RowLine(ks: seq<Tree>)
    requires Row(ks)
    ensures Line(ks)
  {
    if ks != [] {
      RowLine(ks[1..]);
    }
  }

  /** A node that owns its children lists them. */
  lemma {:induction false} HoldsLists(t: Tree)
    requires Holds(t) && !t.data.isRef
    ensures Lists(t.node, t.kids)
  {
    SegLine(null, t.kids);
  }

  /** A node lists what it shows: this covers reference nodes. */
  lemma {:induction false} ShowsLists(t: Tree)
    requires Shows(t)
    ensures Lists(t.node, t.kids)
  {
    RowLine(t.kids);
  }

  /** A tree without references shows what it owns. */
  lemma {:induction false} HoldsShows(t: Tree)
    requires Holds(t) && Proper(t)
    ensures Shows(t)
    decreases t
  {
    SegRow(null, t.kids);
  }

  lemma {:induction false} SegRow(prev: Node?, ks: seq<Tree>)
    requires Seg(prev, ks, null) && AllProper(ks)
    ensures Row(ks)
    decreases ks
  {
    if ks != [] {
      HoldsShows(ks[0]);
      SegRow(ks[0].node, ks[1..]);
    }
  }

  // ---------------------------------------------------------- references

  /** The tree a reference shows: that of the node it refers to, unnamed. */
  ghost function SeenAs(ref: Node, s: Tree): Tree {
    Tree(ref, s.data.(key := NoBlock), s.kids)
  }

  /** A node with the fields of another one, name aside, shows the same tree. */
  lemma {:induction false} ReferenceShows(ref: Node, s: Tree)
    requires Shows(s)
    requires ref.kind == s.node.kind && ref.num == s.node.num && ref.dec == s.node.dec && ref.name == null
    requires ref.child == s.node.child && ref.valuestring == s.node.valuestring
    ensures Shows(SeenAs(ref, s)) && ValueOf(SeenAs(ref, s)) == ValueOf(s)
    ensures Proper(s) ==> Proper(SeenAs(ref, s))
  {
  }

  /** A chain that ends in a reference shows the shared tree at its end. */
  lemma {:induction false} RowWithReference(prev: Node?, ks: seq<Tree>, r: Tree, x: Tree)
    requires Seg(prev, ks + [r], null) && AllProper(ks) && Shows(x) && x.node == r.node
    ensures Row(ks + [x])
    decreases ks
  {
    if ks == [] {
      assert [] + [r] == [r] && [] + [x] == [x];
    } else {
      assert (ks + [r])[1..] == ks[1..] + [r] && (ks + [x])[1..] == ks[1..] + [x];
      HoldsShows(ks[0]);
      RowWithReference(ks[0].node, ks[1..], r, x);
    }
  }
}

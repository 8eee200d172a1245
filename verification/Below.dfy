/** A tree whose child is changed in place: what has to stay for the tree to be
    put together again around the changed child. */
module Below {
  import opened Nodes
  import opened Cache
  import Chain
  import Items

  ghost function WithChild(t: Tree, i: nat, k: Tree): Tree
    requires i < |t.kids|
  {
    Chain.WithKids(t, Chain.Exchanged(t.kids, i, k))
  }

  /** What the tree owns outside child `i`. */
  ghost function Rim(t: Tree, i: nat): set<object>
    requires i < |t.kids|
  {
    Own(t) + AllObjects(t.kids[..i]) + AllObjects(t.kids[i + 1..])
  }

  /** Everything of `Holds(t)` that lies outside child `i`: the node itself, the
      chains before and behind the child, and the child's links. */
  ghost predicate Around(t: Tree, i: nat)
    requires i < |t.kids|
    reads Rim(t, i), t.kids[i].node`prev, t.kids[i].node`next
  {
    && Fields(t)
    && Seg(null, t.kids[..i], t.kids[i].node)
    && t.kids[i].node.prev == Last(null, t.kids[..i])
    && t.kids[i].node.next == Head(t.kids[i + 1..], null)
    && Seg(t.kids[i].node, t.kids[i + 1..], null)
  }

  lemma {:induction false} ChainAround(a: seq<Tree>, k: Tree, b: seq<Tree>)
    ensures Seg(null, a + [k] + b, null)
       <==> && Seg(null, a, k.node) && k.node.prev == Last(null, a) && k.node.next == Head(b, null)
            && Holds(k) && Seg(k.node, b, null)
  {
    hide Holds;
    SegConcat(null, a + [k], b, null);
    SegSnoc(null, a, k, Head(b, null));
  }

  /** A tree and the same tree with another child have the same first child node. */
  lemma {:induction false} SameFields(t: Tree, i: nat, k: Tree)
    requires i < |t.kids| && k.node == t.kids[i].node
    ensures Fields(WithChild(t, i, k)) <==> Fields(t)
  {
  }

  lemma {:induction false} HoldsParts(t: Tree)
    ensures Holds(t) <==> Fields(t) && Seg(null, t.kids, null)
  {
  }

  /** The heap looks like the tree with another child exactly when what lies
      around the child is in place and the heap below it looks like the child. */
  lemma {:induction false} Reassembled(t: Tree, i: nat, k: Tree)
    requires i < |t.kids| && k.node == t.kids[i].node
    ensures Holds(WithChild(t, i, k)) <==> Around(t, i) && Holds(k)
  {
    hide Seg, Holds, Fields;
    ChainAround(t.kids[..i], k, t.kids[i + 1..]);
    SameFields(t, i, k);
    HoldsParts(WithChild(t, i, k));
  }

  /** The surroundings of every child of a tree are in place. */
  lemma {:induction false} AroundChild(t: Tree, i: nat)
    requires Holds(t) && i < |t.kids|
    ensures Around(t, i) && Holds(t.kids[i])
  {
    hide Seg, Holds, Fields;
    Items.SplitAt(t.kids, i);
    Reassembled(t, i, t.kids[i]);
  }

  /** A child that shares nothing with the rest leaves a tree that owns no
      object twice. */
  lemma {:induction false} ReassembledApart(t: Tree, i: nat, k: Tree)
    requires Apart(t) && i < |t.kids| && SameChild(t.kids, i, k) && Own(t) !! Objects(k)
    ensures Apart(WithChild(t, i, k))
  {
    hide AllApart, AllObjects, Objects;
    ChangeApart(t.kids, i, k);
    Chain.ObjectsAround(t.kids, i);
    Chain.ObjectsExchanged(t.kids, i, k);
  }

  /** What lies below a child is none of what lies around it. */
  lemma {:induction false} ChildApart(t: Tree, i: nat)
    requires Apart(t) && i < |t.kids|
    ensures Objects(t) == Rim(t, i) + Objects(t.kids[i]) && Rim(t, i) !! Objects(t.kids[i])
    ensures {t.kids[i].node} + Chain.Roots(t.kids[i].kids) <= Objects(t.kids[i])
    ensures t.node in Rim(t, i) && t.kids[i].node !in Chain.Roots(t.kids[i].kids)
  {
    hide AllApart;
    Chain.ApartAround(t.kids, i);
    Chain.ObjectsAround(t.kids, i);
    forall j | 0 <= j < |t.kids[i].kids|
      ensures t.kids[i].kids[j].node in Objects(t.kids[i]) && t.kids[i].kids[j].node != t.kids[i].node
    {
      ChildInside(t.kids[i].kids, j);
    }
  }

  lemma {:induction false} WithChildObjects(t: Tree, i: nat, k: Tree)
    requires i < |t.kids| && k.node == t.kids[i].node
    ensures Objects(WithChild(t, i, k)) == Rim(t, i) + Objects(k)
  {
    hide AllObjects;
    Chain.ObjectsExchanged(t.kids, i, k);
  }

  lemma {:induction false} SameBelow(t: Tree, i: nat)
    requires Apart(t) && i < |t.kids|
    ensures SameChild(t.kids, i, t.kids[i]) && Own(t) !! Objects(t.kids[i])
  {
    hide AllApart, AllObjects, Objects;
    Chain.ApartAround(t.kids, i);
    Chain.ObjectsAround(t.kids, i);
  }

  /** Growing child `i` by a new tree shares nothing with the rest. */
  lemma {:induction false} GrownBelow(t: Tree, i: nat, k: Tree)
    requires Apart(t) && i < |t.kids| && Apart(k) && Objects(t) !! Objects(k)
    ensures var c := Chain.WithKids(t.kids[i], t.kids[i].kids + [k]);
      SameChild(t.kids, i, c) && Own(t) !! Objects(c)
  {
    hide AllApart, AllObjects;
    Chain.ApartAround(t.kids, i);
    Chain.ObjectsAround(t.kids, i);
    Chain.GrownObjects(t.kids[i], k);
  }
}

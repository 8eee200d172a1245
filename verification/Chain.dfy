/** The list operations of cJSON.c on the children of an array or object. */
module Chain {
  import opened Nodes
  import opened Sharing

  /** The tree with its children replaced. */
  ghost function WithKids(t: Tree, ks: seq<Tree>): Tree {
    t.(kids := ks)
  }

  lemma {:induction false} Parts(t: Tree)
    requires Holds(t) && Apart(t)
    ensures Fields(t) && Seg(null, t.kids, null) && AllApart(t.kids)
    ensures Objects(t) == Own(t) + AllObjects(t.kids) && Own(t) !! AllObjects(t.kids)
    ensures t.node in Own(t)
  {
  }

  /** A node and the chain below it. */
  lemma {:induction false} Assemble(t: Tree, ks: seq<Tree>)
    requires Fields(WithKids(t, ks)) && Seg(null, ks, null)
    ensures Holds(WithKids(t, ks))
  {
  }

  lemma {:induction false} ChildOf(t: Tree)
    requires Fields(t) && !t.data.isRef
    ensures t.node.child == Head(t.kids, null)
  {
  }

  /** Point a parent at the first node of a chain. */
  method PointChild(parent: Node, item: Node, ghost t: Tree, ghost ks: seq<Tree>)
    requires Fields(t) && t.node == parent && !t.data.isRef
    requires Seg(null, ks, null) && ks != [] && ks[0].node == item && Own(t) !! AllObjects(ks)
    modifies parent`child
    ensures Holds(WithKids(t, ks))
  {
    parent.child := item;
  }

  ghost function Clamp(item: int): nat { if item < 0 then 0 else item }

  /** The node at an index, null past the end. */
  ghost function ItemAt(ks: seq<Tree>, item: int): Node? {
    if Clamp(item) < |ks| then ks[Clamp(item)].node else null
  }

  /** `cJSON_GetArraySize`, of any node: its own children or shared ones. */
  method GetArraySize(parent: Node, ghost ks: seq<Tree>) returns (i: nat)
    requires Lists(parent, ks)
    ensures i == |ks|
  {
    var c := parent.child;
    i := 0;
    assert ks[0..] == ks;
    while c != null
      invariant i <= |ks|
      invariant Line(ks) && c == Head(ks[i..], null)
      decreases |ks| - i
    {
      LineAt(ks, i);
      i, c := i + 1, c.next;
    }
  }

  /** `cJSON_GetArrayItem`: a negative index behaves as zero. */
  method GetArrayItem(parent: Node, item: int, ghost ks: seq<Tree>) returns (c: Node?)
    requires Lists(parent, ks)
    ensures c == ItemAt(ks, item)
  {
    c := parent.child;
    var n := item;
    ghost var i := 0;
    assert ks[0..] == ks;
    while c != null && n > 0
      invariant 0 <= i <= |ks| && i <= Clamp(item)
      invariant n == item - i
      invariant Line(ks) && c == Head(ks[i..], null)
      decreases |ks| - i
    {
      LineAt(ks, i);
      n, c, i := n - 1, c.next, i + 1;
    }
  }

  // ------------------------------------------------------------- append

  ghost function LastNode(ks: seq<Tree>): set<Node> {
    if ks == [] then {} else {ks[|ks| - 1].node}
  }

  lemma {:induction false} SplitLast(ks: seq<Tree>, next: Node?)
    requires ks != [] && Seg(null, ks, next)
    ensures Seg(null, Init(ks), Final(ks).node) && Holds(Final(ks))
    ensures Final(ks).node.prev == Last(null, Init(ks)) && Final(ks).node.next == next
  {
    assert ks == Init(ks) + [Final(ks)];
    SegSnoc(null, Init(ks), Final(ks), next);
  }

  /** `suffix_object` at the end of a chain. */
  method SuffixObject(prev: Node, item: Node, ghost ks: seq<Tree>, ghost k: Tree)
    requires ks != [] && prev == ks[|ks| - 1].node && Seg(null, ks, null) && AllApart(ks)
    requires Holds(k) && Apart(k) && k.node == item && AllObjects(ks) !! Objects(k)
    requires item.next == null
    modifies prev`next, item`prev
    ensures Seg(null, ks + [k], null)
  {
    SplitLast(ks, null);
    LastInside(ks);
    prev.next := item;
    item.prev := prev;
    LinkFrame(k);
    SegSetNext(ks);
    SegOne(prev, k, null);
    SegConcat(null, ks, [k], null);
  }

  /** The walk to the last child. */
  method LastChild(parent: Node, ghost t: Tree) returns (c: Node)
    requires Holds(t) && t.node == parent && !t.data.isRef && parent.child != null
    ensures t.kids != [] && c == t.kids[|t.kids| - 1].node
  {
    c := parent.child;
    ghost var i := 0;
    SegAt(null, t.kids, null, 0);
    while c.next != null
      invariant 0 <= i < |t.kids| && c == t.kids[i].node
      invariant Seg(null, t.kids, null) && c.next == Head(t.kids[i + 1..], null)
      decreases |t.kids| - i
    {
      c, i := c.next, i + 1;
      SegAt(null, t.kids, null, i);
    }
  }

  lemma {:induction false} GrownFields(t: Tree, k: Tree)
    requires t.kids != []
    ensures Fields(t) ==> Fields(WithKids(t, t.kids + [k]))
    ensures Own(WithKids(t, t.kids + [k])) == Own(t)
  {
    assert Head(t.kids + [k], null) == Head(t.kids, null);
  }

  method AppendToChain(parent: Node, item: Node, ghost t: Tree, ghost k: Tree)
    requires Holds(t) && Apart(t) && t.node == parent && !t.data.isRef && t.kids != []
    requires Holds(k) && Apart(k) && k.node == item && Objects(t) !! Objects(k)
    requires item.next == null
    modifies LastNode(t.kids)`next, item`prev
    ensures Seg(null, t.kids + [k], null)
  {
    assert allocated(Objects(k)) && allocated(AllObjects(t.kids));
    var c := LastChild(parent, t);
    assert Holds(k) && Seg(null, t.kids, null);
    SuffixObject(c, item, t.kids, k);
  }

  /** `cJSON_AddItemToArray`: append after the last child. */
  method AddItemToArray(parent: Node, item: Node, ghost t: Tree, ghost k: Tree)
    requires Holds(t) && Apart(t) && t.node == parent && !t.data.isRef
    requires Holds(k) && Apart(k) && k.node == item && Objects(t) !! Objects(k)
    requires item.next == null && item.prev == null
    modifies parent`child, LastNode(t.kids)`next, item`prev
    ensures Holds(WithKids(t, t.kids + [k]))
  {
    hide Holds, Fields, Apart, AllApart;
    Parts(t);
    ChildOf(t);
    if parent.child == null {
      assert t.kids + [k] == [k];
      SegOne(null, k, null);
      PointChild(parent, item, t, t.kids + [k]);
    } else {
      LastInside(t.kids);
      GrownFields(t, k);
      assert allocated(Own(t));
      AppendToChain(parent, item, t, k);
      Assemble(t, t.kids + [k]);
    }
  }

  lemma {:induction false} GrownObjects(t: Tree, k: Tree)
    requires Apart(t) && Apart(k) && Objects(t) !! Objects(k)
    ensures Apart(WithKids(t, t.kids + [k]))
    ensures Objects(WithKids(t, t.kids + [k])) == Objects(t) + Objects(k)
  {
    ObjectsConcat(t.kids, [k]);
    ApartConcat(t.kids, [k]);
    SegOne(null, k, null);
  }

  // ------------------------------------------------------------ prepend

  ghost function FirstNode(ks: seq<Tree>): set<Node> {
    if ks == [] then {} else {ks[0].node}
  }

  /** Link `item` before the first child. */
  method PrependToChain(item: Node, c: Node, ghost ks: seq<Tree>, ghost k: Tree)
    requires ks != [] && c == ks[0].node && Seg(null, ks, null) && AllApart(ks)
    requires Holds(k) && Apart(k) && k.node == item && AllObjects(ks) !! Objects(k)
    modifies c`prev, item`next, item`prev
    ensures Seg(null, [k] + ks, null)
  {
    assert c in Objects(ks[0]);
    item.prev := c.prev;
    item.next := c;
    c.prev := item;
    LinkFrame(k);
    SegSetPrev(ks);
    assert ([k] + ks)[1..] == ks;
  }

  /** `cJSON_AddItemToArrayHead`. */
  method AddItemToArrayHead(parent: Node, item: Node, ghost t: Tree, ghost k: Tree)
    requires Holds(t) && Apart(t) && t.node == parent && !t.data.isRef
    requires Holds(k) && Apart(k) && k.node == item && Objects(t) !! Objects(k)
    requires item.next == null && item.prev == null
    modifies parent`child, FirstNode(t.kids)`prev, item`next, item`prev
    ensures Holds(WithKids(t, [k] + t.kids))
  {
    hide Holds, Fields, Apart, AllApart;
    Parts(t);
    SegOne(null, k, null);
    assert ([k] + t.kids)[1..] == t.kids;
    var c := parent.child;
    if c == null {
      ChildOf(t);
      assert [k] + t.kids == [k];
    } else {
      ChildOf(t);
      assert allocated(Own(t));
      PrependToChain(item, c, t.kids, k);
    }
    PointChild(parent, item, t, [k] + t.kids);
  }

  // ------------------------------------------------------------- detach

  ghost function Without(ks: seq<Tree>, i: nat): seq<Tree>
    requires i < |ks|
  {
    ks[..i] + ks[i + 1..]
  }

  /** What splitting a chain around its i-th node gives. */
  lemma {:induction false} SplitAround(ks: seq<Tree>, i: nat)
    requires Seg(null, ks, null) && AllApart(ks) && i < |ks|
    ensures Seg(null, ks[..i], ks[i].node)
    ensures Seg(ks[i].node, ks[i + 1..], null)
    ensures ks[i].node.prev == Last(null, ks[..i]) && ks[i].node.next == Head(ks[i + 1..], null)
    ensures Holds(ks[i])
  {
    var a, b := ks[..i], ks[i + 1..];
    assert ks == a + ([ks[i]] + b);
    SegConcat(null, a, [ks[i]] + b, null);
    assert ([ks[i]] + b)[1..] == b;
  }

  /** Which parts of a chain own which objects. */
  lemma {:induction false} ApartAround(ks: seq<Tree>, i: nat)
    requires AllApart(ks) && i < |ks|
    ensures AllApart(ks[..i]) && Apart(ks[i]) && AllApart(ks[i + 1..])
    ensures AllObjects(ks[..i]) !! Objects(ks[i])
    ensures AllObjects(ks[..i]) !! AllObjects(ks[i + 1..])
    ensures Objects(ks[i]) !! AllObjects(ks[i + 1..])
  {
    var a, b := ks[..i], ks[i + 1..];
    assert ks == a + ([ks[i]] + b);
    ApartConcat(a, [ks[i]] + b);
    ApartHead(ks[i], b);
  }

  lemma {:induction false} ApartHead(k: Tree, b: seq<Tree>)
    ensures AllApart([k] + b) <==> Apart(k) && Objects(k) !! AllObjects(b) && AllApart(b)
    ensures AllObjects([k] + b) == Objects(k) + AllObjects(b)
  {
    assert ([k] + b)[1..] == b;
  }

  lemma {:induction false} ObjectsAround(ks: seq<Tree>, i: nat)
    requires i < |ks|
    ensures AllObjects(ks) == AllObjects(ks[..i]) + Objects(ks[i]) + AllObjects(ks[i + 1..])
  {
    var a, b := ks[..i], ks[i + 1..];
    assert ks == a + ([ks[i]] + b);
    ObjectsConcat(a, [ks[i]] + b);
    ApartHead(ks[i], b);
  }

  lemma {:induction false} ApartWithout(ks: seq<Tree>, i: nat)
    requires AllApart(ks) && i < |ks|
    ensures AllApart(Without(ks, i))
    ensures AllObjects(Without(ks, i)) == AllObjects(ks[..i]) + AllObjects(ks[i + 1..])
  {
    ApartAround(ks, i);
    ApartConcat(ks[..i], ks[i + 1..]);
    ObjectsConcat(ks[..i], ks[i + 1..]);
  }

  /** Set the `next` of the last node of a chain, if there is one. */
  method TieBefore(p: Node?, x: Node?, ghost a: seq<Tree>, ghost next: Node?)
    requires Seg(null, a, next) && AllApart(a) && p == Last(null, a)
    modifies LastNode(a)`next
    ensures Seg(null, a, x)
  {
    if p != null {
      SplitLast(a, next);
      LastInside(a);
      p.next := x;
      SegSetNext(a);
    }
  }

  /** Set the `prev` of the first node of a chain, if there is one. */
  method TieAfter(n: Node?, x: Node?, ghost b: seq<Tree>, ghost prev: Node?)
    requires Seg(prev, b, null) && AllApart(b) && n == Head(b, null)
    modifies FirstNode(b)`prev
    ensures Seg(x, b, null)
  {
    if n != null {
      n.prev := x;
      SegSetPrev(b);
    }
  }

  /** Join the neighbours of the i-th node. */
  method LinkOver(c: Node, ghost ks: seq<Tree>, ghost i: nat)
    requires Seg(null, ks, null) && AllApart(ks) && i < |ks| && c == ks[i].node
    modifies LastNode(ks[..i])`next, FirstNode(ks[i + 1..])`prev
    ensures Seg(null, Without(ks, i), null) && Holds(ks[i])
  {
    ghost var a, k, b := ks[..i], ks[i], ks[i + 1..];
    SplitAround(ks, i);
    ApartAround(ks, i);
    assert allocated(AllObjects(a)) && allocated(Objects(k)) && allocated(AllObjects(b));
    InsideAround(ks, i);
    TieBefore(c.prev, c.next, a, c);
    assert Holds(k) && Seg(c, b, null);
    TieAfter(c.next, c.prev, b, c);
    SegConcat(null, a, b, null);
  }

  /** Clear the links of a node whose neighbours are linked over it. */
  method ClearLinks(c: Node, ghost k: Tree, ghost rest: seq<Tree>)
    requires Holds(k) && Apart(k) && c == k.node
    requires Seg(null, rest, null) && Objects(k) !! AllObjects(rest)
    modifies c`prev, c`next
    ensures c.next == null && c.prev == null
    ensures Holds(k) && Seg(null, rest, null)
  {
    assert c in Objects(k);
    c.prev, c.next := null, null;
    LinkFrame(k);
  }

  /** Join the neighbours of the i-th node, or move the parent's `child`. */
  method CutOut(parent: Node, c: Node, ghost t: Tree, ghost i: nat)
    requires Holds(t) && Apart(t) && t.node == parent && !t.data.isRef
    requires i < |t.kids| && c == t.kids[i].node
    modifies parent`child, LastNode(t.kids[..i])`next, FirstNode(t.kids[i + 1..])`prev
    ensures Fields(WithKids(t, Without(t.kids, i)))
    ensures Seg(null, Without(t.kids, i), null) && Holds(t.kids[i])
  {
    ghost var ks := t.kids;
    SplitAround(ks, i);
    InsideAround(ks, i);
    HeadWithout(ks, i);
    assert allocated(Objects(ks[i]));
    LinkOver(c, ks, i);
    Retarget(parent, c, c.next, t, Without(ks, i));
  }

  /** Point the parent at the next node when its first one leaves. */
  method Retarget(parent: Node, c: Node, next: Node?, ghost t: Tree, ghost ks: seq<Tree>)
    requires Fields(t) && t.node == parent && !t.data.isRef && t.kids != []
    requires Seg(null, ks, null) && Own(t) !! AllObjects(ks)
    requires Head(ks, null) == if c == t.kids[0].node then next else t.kids[0].node
    modifies parent`child
    ensures Fields(WithKids(t, ks)) && Seg(null, ks, null)
  {
    if c == parent.child {
      parent.child := next;
    }
  }

  lemma {:induction false} HeadWithout(ks: seq<Tree>, i: nat)
    requires AllApart(ks) && i < |ks|
    ensures Head(Without(ks, i), null) == if i == 0 then Head(ks[1..], null) else ks[0].node
    ensures i > 0 ==> ks[0].node != ks[i].node
  {
    if i > 0 {
      ApartAround(ks, i);
      assert ks[..i][0] == ks[0];
      assert ks[i].node in Objects(ks[i]);
    }
  }

  /** Take the i-th node out of its chain. */
  method Unlink(parent: Node, c: Node, ghost t: Tree, ghost i: nat)
    requires Holds(t) && Apart(t) && t.node == parent && !t.data.isRef
    requires i < |t.kids| && c == t.kids[i].node
    modifies parent`child, c`prev, c`next
    modifies LastNode(t.kids[..i])`next, FirstNode(t.kids[i + 1..])`prev
    ensures Fields(WithKids(t, Without(t.kids, i))) && Seg(null, Without(t.kids, i), null)
    ensures Holds(t.kids[i]) && c.next == null && c.prev == null
  {
    hide Holds, Fields, Apart, AllApart;
    Parts(t);
    CutOut(parent, c, t, i);
    ApartAround(t.kids, i);
    ApartWithout(t.kids, i);
    InsideAround(t.kids, i);
    assert c !in Own(WithKids(t, Without(t.kids, i))) && allocated(Own(t));
    ClearLinks(c, t.kids[i], Without(t.kids, i));
  }

  /** The nodes that removing the i-th one touches are not the parent's. */
  lemma {:induction false} InsideAround(ks: seq<Tree>, i: nat)
    requires i < |ks|
    ensures LastNode(ks[..i]) <= AllObjects(ks[..i]) <= AllObjects(ks)
    ensures FirstNode(ks[i + 1..]) <= AllObjects(ks[i + 1..]) <= AllObjects(ks)
    ensures ks[i].node in Objects(ks[i]) && Objects(ks[i]) <= AllObjects(ks)
    ensures AllObjects(Without(ks, i)) <= AllObjects(ks)
  {
    ObjectsAround(ks, i);
    ObjectsConcat(ks[..i], ks[i + 1..]);
    if i > 0 {
      LastInside(ks[..i]);
    }
  }

  /** `cJSON_DetachItemFromArray`: the i-th child, out of the chain; nothing
      when the index is past the end. */
  method DetachItemFromArray(parent: Node, which: int, ghost t: Tree) returns (c: Node?, ghost t': Tree)
    requires Holds(t) && Apart(t) && t.node == parent && !t.data.isRef
    modifies parent`child, Roots(t.kids)`next, Roots(t.kids)`prev
    ensures c == ItemAt(t.kids, which)
    ensures c == null ==> t' == t
    ensures c != null ==> t' == WithKids(t, Without(t.kids, Clamp(which)))
    ensures c != null ==> Holds(t.kids[Clamp(which)]) && c.next == null && c.prev == null
    ensures Holds(t')
  {
    assert allocated(Objects(t));
    HoldsLists(t);
    c := GetArrayItem(parent, which, t.kids);
    assert Holds(t);
    t' := t;
    if c != null {
      Unlink(parent, c, t, Clamp(which));
      t' := WithKids(t, Without(t.kids, Clamp(which)));
    }
  }

  /** The nodes of a chain. */
  ghost function Roots(ks: seq<Tree>): set<Node> {
    set i | 0 <= i < |ks| :: ks[i].node
  }

  // ------------------------------------------------------------ replace

  /** Make the neighbours on both sides point at `item`. */
  method Splice(item: Node, ghost a: seq<Tree>, ghost k: Tree, ghost b: seq<Tree>, ghost c: Node)
    requires Seg(null, a, c) && Seg(c, b, null) && Holds(k) && k.node == item
    requires AllApart(a) && AllApart(b) && AllObjects(a) !! AllObjects(b)
    requires Objects(k) !! AllObjects(a) && Objects(k) !! AllObjects(b)
    requires item.next == Head(b, null) && item.prev == Last(null, a)
    requires LastNode(a) <= AllObjects(a) && FirstNode(b) <= AllObjects(b)
    modifies LastNode(a)`next, FirstNode(b)`prev
    ensures Seg(null, a + [k] + b, null)
  {
    assert allocated(AllObjects(a)) && allocated(Objects(k));
    assert item in Objects(k);
    TieAfter(item.next, item, b, c);
    assert Seg(null, a, c) && Holds(k);
    assert allocated(AllObjects(b));
    TieBefore(item.prev, item, a, c);
    assert Seg(item, b, null) && Holds(k);
    JoinAround(a, k, b);
  }

  /** Put `item` in the place of the i-th node. */
  method SwapInChain(c: Node, item: Node, ghost ks: seq<Tree>, ghost i: nat, ghost k: Tree)
    requires Seg(null, ks, null) && AllApart(ks) && i < |ks| && c == ks[i].node
    requires Holds(k) && Apart(k) && k.node == item && AllObjects(ks) !! Objects(k)
    modifies item`next, item`prev, LastNode(ks[..i])`next, FirstNode(ks[i + 1..])`prev
    ensures Seg(null, ks[..i] + [k] + ks[i + 1..], null) && Holds(ks[i])
  {
    hide Holds, Fields, Apart, AllApart;
    ghost var a, b := ks[..i], ks[i + 1..];
    SplitAround(ks, i);
    ApartAround(ks, i);
    InsideAround(ks, i);
    assert allocated(AllObjects(a)) && allocated(Objects(ks[i])) && allocated(AllObjects(b));
    SetLinks(item, c.next, c.prev, k);
    assert Seg(null, a, c) && Holds(ks[i]) && Seg(c, b, null);
    assert allocated(Objects(ks[i]));
    Splice(item, a, k, b, c);
  }

  method SetLinks(item: Node, next: Node?, prev: Node?, ghost k: Tree)
    requires Holds(k) && Apart(k) && k.node == item
    modifies item`next, item`prev
    ensures Holds(k) && item.next == next && item.prev == prev
  {
    item.next := next;
    item.prev := prev;
    LinkFrame(k);
  }

  lemma {:induction false} JoinAround(a: seq<Tree>, k: Tree, b: seq<Tree>)
    requires Seg(null, a, k.node) && Seg(k.node, b, null) && Holds(k)
    requires k.node.prev == Last(null, a) && k.node.next == Head(b, null)
    ensures Seg(null, a + [k] + b, null)
  {
    SegSnoc(null, a, k, Head(b, null));
    SegConcat(null, a + [k], b, null);
  }

  /** Exchange the i-th child for `item`, leaving the old child unlinked. */
  method Exchange(parent: Node, c: Node, item: Node, ghost t: Tree, ghost i: nat, ghost k: Tree)
    requires Holds(t) && Apart(t) && t.node == parent && !t.data.isRef
    requires i < |t.kids| && c == t.kids[i].node
    requires Holds(k) && Apart(k) && k.node == item && Objects(t) !! Objects(k)
    modifies parent`child, item`next, item`prev
    modifies LastNode(t.kids[..i])`next, FirstNode(t.kids[i + 1..])`prev
    ensures Fields(WithKids(t, Exchanged(t.kids, i, k))) && Seg(null, Exchanged(t.kids, i, k), null)
    ensures Holds(t.kids[i])
  {
    hide Holds, Fields, Apart, AllApart, Seg;
    Parts(t);
    HeadWithout(t.kids, i);
    InsideAround(t.kids, i);
    ObjectsAround(t.kids, i);
    ObjectsExchanged(t.kids, i, k);
    assert allocated(Objects(t.kids[i]));
    SwapInChain(c, item, t.kids, i, k);
    Retarget(parent, c, item, t, Exchanged(t.kids, i, k));
  }

  ghost function Exchanged(ks: seq<Tree>, i: nat, k: Tree): seq<Tree>
    requires i < |ks|
  {
    ks[..i] + [k] + ks[i + 1..]
  }

  lemma {:induction false} ObjectsExchanged(ks: seq<Tree>, i: nat, k: Tree)
    requires i < |ks|
    ensures AllObjects(Exchanged(ks, i, k)) == AllObjects(ks[..i]) + Objects(k) + AllObjects(ks[i + 1..])
  {
    ObjectsSnoc(ks[..i], k);
    ObjectsConcat(ks[..i] + [k], ks[i + 1..]);
  }

  lemma {:induction false} ApartExchanged(ks: seq<Tree>, i: nat, k: Tree)
    requires AllApart(ks) && i < |ks| && Apart(k) && AllObjects(ks) !! Objects(k)
    ensures AllApart(Exchanged(ks, i, k))
    ensures Objects(ks[i]) !! AllObjects(Exchanged(ks, i, k))
  {
    ApartAround(ks, i);
    ObjectsAround(ks, i);
    ObjectsExchanged(ks, i, k);
    ApartSnoc(ks[..i], k);
    ObjectsSnoc(ks[..i], k);
    ApartConcat(ks[..i] + [k], ks[i + 1..]);
  }

  // ------------------------------------------------------------- delete

  /** `cJSON_free`: the block must be allocated, and no longer is. */
  ghost method Free(o: object, live: set<object>) returns (live': set<object>)
    requires o in live
    ensures live' == live - {o}
  {
    live' := live - {o};
  }

  /** The three blocks a node itself owns. */
  ghost method FreeOwn(t: Tree, live: set<object>) returns (live': set<object>)
    requires Fields(t) && Own(t) <= live
    requires t.data.key.Block? && t.data.str.Block? && !t.data.isRef ==> t.data.key.a != t.data.str.a
    ensures live' == live - Own(t)
  {
    live' := live;
    if !t.node.isRef && t.node.valuestring != null {
      live' := Free(t.node.valuestring, live');
    }
    if t.node.name != null {
      live' := Free(t.node.name, live');
    }
    live' := Free(t.node, live');
  }

  /** The first tree of a chain: what its node owns, its children, and the
      chain after it. */
  lemma {:induction false} FirstOfChain(p: Node?, r: seq<Tree>)
    requires r != [] && Seg(p, r, null) && AllApart(r)
    ensures var t := r[0];
      && t.node.next == Head(r[1..], null) && Seg(t.node, r[1..], null) && AllApart(r[1..])
      && Fields(t) && Seg(null, t.kids, null) && AllApart(t.kids) && Own(t) !! AllObjects(t.kids)
      && t.node.isRef == t.data.isRef && (t.data.isRef ==> t.kids == [])
      && (!t.data.isRef ==> t.node.child == Head(t.kids, null))
      && (t.data.key.Block? && t.data.str.Block? && !t.data.isRef ==> t.data.key.a != t.data.str.a)
      && AllObjects(r) == Own(t) + AllObjects(t.kids) + AllObjects(r[1..])
      && (Own(t) + AllObjects(t.kids)) !! AllObjects(r[1..])
      && (t.kids == [] ==> AllObjects(t.kids) == {})
  {
    assert Holds(r[0]) && Apart(r[0]);
  }

  lemma {:induction false} NothingLeft()
    ensures AllObjects([]) == {}
  {
  }

  /** `cJSON_Delete`: every node and string of the chain starting at `c` and of
      the subtrees below is freed exactly once, and nothing else is; what a
      reference node shares is not touched. */
  method Delete(c: Node?, ghost prev: Node?, ghost ks: seq<Tree>, ghost live: set<object>)
    returns (ghost live': set<object>)
    requires c == Head(ks, null) && Seg(prev, ks, null) && AllApart(ks)
    requires AllObjects(ks) <= live
    ensures live' == live - AllObjects(ks)
    decreases ks
  {
    hide Holds, Fields, Seg, Apart, AllApart, AllObjects, Objects;
    var c' := c;
    ghost var r, p := ks, prev;
    live' := live;
    while c' != null
      invariant c' == Head(r, null) && Seg(p, r, null) && AllApart(r)
      invariant |r| <= |ks| && r == ks[|ks| - |r|..]
      invariant AllObjects(r) <= live' && live' - AllObjects(r) == live - AllObjects(ks)
      decreases r
    {
      var next := c'.next;
      FirstOfChain(p, r);
      if !c'.isRef && c'.child != null {
        live' := Delete(c'.child, null, r[0].kids, live');
      }
      live' := FreeOwn(r[0], live');
      p, r, c' := c', r[1..], next;
    }
    NothingLeft();
  }
}

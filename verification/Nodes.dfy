/** The cJSON node and the trees it links into.

    A ghost `Tree` describes the shape and contents of the nodes below a node.
    It is a plain value, so the objects it covers (`Objects`) do not depend on
    the heap; `Holds` says that the heap looks like the tree. */
module Nodes {
  import opened Bytes
  import opened Numbers
  import opened JsonValue

  /** The low byte of the C field `type`; its reference flag is `isRef`. */
  datatype Kind = KFalse | KTrue | KNull | KInt | KDouble | KString | KArray | KObject

  /** The mantissa the rounding digit loop left and the power of ten it is to be
      scaled by; stands for `valuedouble`. */
  datatype Decimals = Decimals(mantissa: int, exp10: int)

  class Node {
    var next: Node?
    var prev: Node?
    var child: Node?
    var kind: Kind
    var isRef: bool
    var valuestring: array?<byte>
    var num: IntFields
    var dec: Decimals
    var name: array?<byte>

    /** `cJSON_New_Item`: every byte zero. */
    constructor ()
      ensures next == null && prev == null && child == null
      ensures kind == KFalse && !isRef
      ensures valuestring == null && name == null
      ensures num == IntFields(0, 0) && dec == Decimals(0, 0)
    {
      next, prev, child := null, null, null;
      kind, isRef := KFalse, false;
      valuestring, name := null, null;
      num, dec := IntFields(0, 0), Decimals(0, 0);
    }
  }

  /** A `char *` field: null, or a block holding a C string. */
  datatype Block = NoBlock | Block(a: array<byte>, text: Text)
  {
    ghost function Objects(): set<object> {
      if NoBlock? then {} else {a}
    }

    /** The text, as code that treats null as empty sees it. */
    ghost function Str(): Text {
      if NoBlock? then [] else text
    }
  }

  ghost predicate BlockIs(p: array?<byte>, b: Block)
    reads b.Objects()
  {
    match b
    case NoBlock => p == null
    case Block(a, s) => p == a && IsCString(a, s)
  }

  datatype Data = Data(kind: Kind, isRef: bool, num: IntFields, dec: Decimals, str: Block, key: Block)

  datatype Tree = Tree(node: Node, data: Data, kids: seq<Tree>)

  // ----------------------------------------------------------- footprints

  /** What the node itself owns: a reference shares its value string. */
  ghost function Own(t: Tree): set<object> {
    {t.node} + t.data.key.Objects() + if t.data.isRef then {} else t.data.str.Objects()
  }

  /** Every node and string block the tree owns. */
  ghost function Objects(t: Tree): set<object>
    decreases t
  {
    Own(t) + AllObjects(t.kids)
  }

  ghost function AllObjects(ks: seq<Tree>): set<object>
    decreases ks
  {
    if ks == [] then {} else Objects(ks[0]) + AllObjects(ks[1..])
  }

  /** No object is owned twice. */
  ghost predicate Apart(t: Tree)
    decreases t
  {
    && (t.data.key.Block? && t.data.str.Block? && !t.data.isRef ==> t.data.key.a != t.data.str.a)
    && Own(t) !! AllObjects(t.kids)
    && AllApart(t.kids)
  }

  ghost predicate AllApart(ks: seq<Tree>)
    decreases ks
  {
    ks == [] || (Apart(ks[0]) && Objects(ks[0]) !! AllObjects(ks[1..]) && AllApart(ks[1..]))
  }

  // ------------------------------------------------------------- contents

  ghost function Head(ks: seq<Tree>, next: Node?): Node? {
    if ks == [] then next else ks[0].node
  }

  ghost function Last(prev: Node?, ks: seq<Tree>): Node? {
    if ks == [] then prev else ks[|ks| - 1].node
  }

  /** The node's own fields are those the tree describes. A reference node has
      no children of its own: where its `child` and `valuestring` point is not
      its tree's business. */
  ghost predicate Fields(t: Tree)
    reads Own(t)
  {
    && t.node.kind == t.data.kind
    && t.node.isRef == t.data.isRef
    && t.node.num == t.data.num
    && t.node.dec == t.data.dec
    && BlockIs(t.node.name, t.data.key)
    && (t.data.isRef ==> t.kids == [])
    && (!t.data.isRef ==>
          BlockIs(t.node.valuestring, t.data.str) && t.node.child == Head(t.kids, null))
  }

  /** The heap below `t.node` looks like `t`. */
  ghost predicate Holds(t: Tree)
    reads Objects(t)
    decreases t
  {
    Fields(t) && Seg(null, t.kids, null)
  }

  /** The nodes of `ks` form a doubly linked chain from `prev` to `next`. */
  ghost predicate Seg(prev: Node?, ks: seq<Tree>, next: Node?)
    reads AllObjects(ks)
    decreases ks
  {
    ks == [] || (
      assert ks[0].node in Objects(ks[0]);
      && ks[0].node.prev == prev
      && ks[0].node.next == Head(ks[1..], next)
      && Holds(ks[0])
      && Seg(ks[0].node, ks[1..], next))
  }

  // ---------------------------------------------------------------- value

  ghost function ValueOf(t: Tree): Json {
    match t.data.kind
    case KFalse => Bool(false)
    case KTrue => Bool(true)
    case KNull => Null
    case KInt => Int(Numeric(t.data.num))
    case KDouble => Dbl(t.data.dec.mantissa, t.data.dec.exp10)
    case KString => Str(t.data.str.Str())
    case KArray => Arr(ValuesOf(t.kids))
    case KObject => Obj(MembersOf(t.kids))
  }

  ghost function ValuesOf(ks: seq<Tree>): (vs: seq<Json>)
    ensures |vs| == |ks|
  {
    if ks == [] then [] else [ValueOf(ks[0])] + ValuesOf(ks[1..])
  }

  ghost function MembersOf(ks: seq<Tree>): (ms: seq<Member>)
    ensures |ms| == |ks|
  {
    if ks == [] then [] else [Member(ks[0].data.key.Str(), ValueOf(ks[0]))] + MembersOf(ks[1..])
  }

  /** A tree as the parser and the constructors build it: no references, every
      string present, every member named. */
  ghost predicate Proper(t: Tree)
    decreases t
  {
    && !t.data.isRef
    && (t.data.kind == KString ==> t.data.str.Block?)
    && AllProper(t.kids)
    && (t.data.kind == KObject ==> Named(t.kids))
  }

  ghost predicate AllProper(ks: seq<Tree>)
    decreases ks
  {
    ks == [] || (Proper(ks[0]) && AllProper(ks[1..]))
  }

  ghost predicate Named(ks: seq<Tree>) {
    forall i :: 0 <= i < |ks| ==> ks[i].data.key.Block?
  }

  // ---------------------------------------------------- splitting a chain

  lemma {:induction false} ObjectsConcat(a: seq<Tree>, b: seq<Tree>)
    ensures AllObjects(a + b) == AllObjects(a) + AllObjects(b)
  {
    if a == [] {
      assert a + b == b;
    } else {
      ObjectsConcat(a[1..], b);
      assert (a + b)[1..] == a[1..] + b;
    }
  }

  lemma {:induction false} ApartConcat(a: seq<Tree>, b: seq<Tree>)
    ensures AllApart(a + b) <==> AllApart(a) && AllApart(b) && AllObjects(a) !! AllObjects(b)
  {
    if a == [] {
      assert a + b == b;
    } else {
      ApartConcat(a[1..], b);
      ObjectsConcat(a[1..], b);
      assert (a + b)[1..] == a[1..] + b;
    }
  }

  lemma {:induction false} SegConcat(prev: Node?, a: seq<Tree>, b: seq<Tree>, next: Node?)
    ensures Seg(prev, a + b, next) <==> Seg(prev, a, Head(b, next)) && Seg(Last(prev, a), b, next)
    decreases a
  {
    if a == [] {
      assert a + b == b;
    } else {
      SegConcat(a[0].node, a[1..], b, next);
      assert (a + b)[1..] == a[1..] + b;
      assert Last(a[0].node, a[1..]) == Last(prev, a);
    }
  }

  lemma {:induction false} ValuesConcat(a: seq<Tree>, b: seq<Tree>)
    ensures ValuesOf(a + b) == ValuesOf(a) + ValuesOf(b)
  {
    hide ValueOf;
    if a == [] {
      assert a + b == b;
    } else {
      ValuesConcat(a[1..], b);
      assert (a + b)[1..] == a[1..] + b;
    }
  }

  lemma {:induction false} MembersCons(k: Tree, ks: seq<Tree>)
    ensures MembersOf([k] + ks) == [Member(k.data.key.Str(), ValueOf(k))] + MembersOf(ks)
  {
    hide ValueOf;
    assert ([k] + ks)[1..] == ks;
  }

  lemma {:induction false} MembersConcat(a: seq<Tree>, b: seq<Tree>)
    ensures MembersOf(a + b) == MembersOf(a) + MembersOf(b)
  {
    hide ValueOf, MembersOf;
    if a == [] {
      assert a + b == b;
      NoMembers();
      assert [] + MembersOf(b) == MembersOf(b);
    } else {
      MembersConcat(a[1..], b);
      MembersCons(a[0], a[1..]);
      MembersCons(a[0], a[1..] + b);
      assert a == [a[0]] + a[1..] && a + b == [a[0]] + (a[1..] + b);
    }
  }

  lemma {:induction false} NoMembers()
    ensures MembersOf([]) == []
  {
  }

  lemma {:induction false} ProperConcat(a: seq<Tree>, b: seq<Tree>)
    ensures AllProper(a + b) <==> AllProper(a) && AllProper(b)
  {
    hide Proper;
    if a == [] {
      assert a + b == b;
    } else {
      ProperConcat(a[1..], b);
      assert (a + b)[1..] == a[1..] + b;
    }
  }

  /** The i-th node of a chain: its links, its tree, and its place. */
  lemma {:induction false} SegAt(prev: Node?, ks: seq<Tree>, next: Node?, i: nat)
    requires Seg(prev, ks, next) && i < |ks|
    ensures ks[i].node.next == Head(ks[i + 1..], next)
    ensures ks[i].node.prev == Last(prev, ks[..i])
    ensures Holds(ks[i]) && Objects(ks[i]) <= AllObjects(ks)
    decreases i
  {
    if i > 0 {
      SegAt(ks[0].node, ks[1..], next, i - 1);
      assert ks[1..][i..] == ks[i + 1..];
      assert Last(ks[0].node, ks[1..][..i - 1]) == Last(prev, ks[..i]) by {
        if i > 1 {
          assert ks[1..][..i - 1][i - 2] == ks[..i][i - 1];
        }
      }
    }
  }

  // ----------------------------------------------- framing after a relink

  /** At most the node's links were rewritten. */
  twostate predicate SameData(n: Node)
    reads n
  {
    && n.child == old(n.child) && n.kind == old(n.kind)
    && n.isRef == old(n.isRef) && n.num == old(n.num) && n.dec == old(n.dec)
    && n.valuestring == old(n.valuestring) && n.name == old(n.name)
  }

  twostate predicate SameNext(n: Node)
    reads n
  {
    n.next == old(n.next)
  }

  /** Rewriting the links of a tree's root leaves the tree in place. */
  twostate lemma {:induction false} LinkFrame(t: Tree)
    requires old(Holds(t)) && Apart(t) && SameData(t.node)
    requires forall o: object | o in Objects(t) && o != t.node && old(allocated(o)) :: unchanged(o)
    ensures Holds(t)
  {
    assert old(allocated(AllObjects(t.kids)));
    assert forall o | o in AllObjects(t.kids) :: o in Objects(t) && o != t.node;
  }

  /** Rewriting the `prev` of the first node. */
  twostate lemma {:induction false} SegSetPrev(ks: seq<Tree>)
    requires ks != [] && old(Seg(ks[0].node.prev, ks, null)) && AllApart(ks)
    requires SameData(ks[0].node) && SameNext(ks[0].node)
    requires forall o: object | o in AllObjects(ks) && o != ks[0].node && old(allocated(o)) :: unchanged(o)
    ensures Seg(ks[0].node.prev, ks, null)
  {
    assert Objects(ks[0]) <= AllObjects(ks);
    LinkFrame(ks[0]);
    assert old(allocated(AllObjects(ks[1..])));
    assert forall o | o in AllObjects(ks[1..]) :: o in AllObjects(ks) && o != ks[0].node;
  }

  lemma {:induction false} SegOne(prev: Node?, t: Tree, next: Node?)
    ensures Seg(prev, [t], next) <==> t.node.prev == prev && t.node.next == next && Holds(t)
    ensures AllObjects([t]) == Objects(t)
    ensures AllApart([t]) <==> Apart(t)
  {
    assert [t][1..] == [];
  }

  lemma {:induction false} ObjectsSnoc(a: seq<Tree>, l: Tree)
    ensures AllObjects(a + [l]) == AllObjects(a) + Objects(l)
  {
    ObjectsConcat(a, [l]);
    assert [l][1..] == [];
  }

  lemma {:induction false} ApartSnoc(a: seq<Tree>, l: Tree)
    ensures AllApart(a + [l]) <==> AllApart(a) && Apart(l) && AllObjects(a) !! Objects(l)
  {
    ApartConcat(a, [l]);
    assert [l][1..] == [];
  }

  lemma {:induction false} SegSnoc(prev: Node?, a: seq<Tree>, l: Tree, next: Node?)
    ensures Seg(prev, a + [l], next)
       <==> Seg(prev, a, l.node) && Holds(l) && l.node.prev == Last(prev, a) && l.node.next == next
  {
    SegConcat(prev, a, [l], next);
    SegOne(Last(prev, a), l, next);
  }

  /** A chain is its last node after the rest. */
  lemma {:induction false} LastParts(ks: seq<Tree>, a: seq<Tree>, l: Tree)
    requires ks == a + [l] && AllApart(ks)
    ensures AllApart(a) && Apart(l) && AllObjects(a) !! Objects(l)
    ensures AllObjects(ks) == AllObjects(a) + Objects(l)
  {
    ApartSnoc(a, l);
    ObjectsSnoc(a, l);
  }

  ghost function Init(ks: seq<Tree>): seq<Tree>
    requires ks != []
  {
    ks[..|ks| - 1]
  }

  ghost function Final(ks: seq<Tree>): Tree
    requires ks != []
  {
    ks[|ks| - 1]
  }

  lemma {:induction false} FinalParts(ks: seq<Tree>)
    requires ks != [] && AllApart(ks)
    ensures ks == Init(ks) + [Final(ks)]
    ensures AllApart(Init(ks)) && Apart(Final(ks)) && AllObjects(Init(ks)) !! Objects(Final(ks))
    ensures AllObjects(ks) == AllObjects(Init(ks)) + Objects(Final(ks))
  {
    LastParts(ks, Init(ks), Final(ks));
  }

  /** Rewriting the `next` of the last node of a chain that was cut before it. */
  twostate lemma {:induction false} SegSetNext(ks: seq<Tree>)
    requires ks != [] && AllApart(ks)
    requires old(Seg(null, Init(ks), Final(ks).node)) && old(Holds(Final(ks)))
    requires Final(ks).node.prev == Last(null, Init(ks)) && SameData(Final(ks).node)
    requires forall o: object | o in AllObjects(ks) && o != Final(ks).node && old(allocated(o)) :: unchanged(o)
    ensures Seg(null, ks, Final(ks).node.next)
  {
    FinalParts(ks);
    LinkFrame(Final(ks));
    assert old(allocated(AllObjects(Init(ks))));
    assert Final(ks).node in Objects(Final(ks));
    SegSnoc(null, Init(ks), Final(ks), Final(ks).node.next);
  }

  lemma {:induction false} LastInside(ks: seq<Tree>)
    requires ks != []
    ensures ks[|ks| - 1].node in AllObjects(ks)
  {
    if |ks| > 1 {
      LastInside(ks[1..]);
      assert ks[1..][|ks[1..]| - 1] == ks[|ks| - 1];
    }
  }
}

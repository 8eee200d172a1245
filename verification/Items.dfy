/** The operations of cJSON.c that delete and replace children, and those that
    select a child by name. */
module Items {
  import opened Bytes
  import opened JsonValue
  import opened Numbers
  import opened Nodes
  import opened Sharing
  import opened Chain

  // ------------------------------------------------- delete and replace

  /** `cJSON_Delete` of a node that is in no chain. */
  method DeleteItem(c: Node, ghost k: Tree, ghost live: set<object>) returns (ghost live': set<object>)
    requires Holds(k) && Apart(k) && k.node == c && c.next == null && c.prev == null
    requires Objects(k) <= live
    ensures live' == live - Objects(k)
  {
    SegOne(null, k, null);
    live' := Delete(c, null, [k], live);
  }

  lemma {:induction false} InRange(ks: seq<Tree>, item: int)
    ensures ItemAt(ks, item) != null <==> Clamp(item) < |ks|
  {
  }

  lemma {:induction false} WithoutApart(t: Tree, i: nat)
    requires Apart(t) && i < |t.kids|
    ensures Apart(WithKids(t, Without(t.kids, i))) && Apart(t.kids[i])
    ensures Objects(WithKids(t, Without(t.kids, i))) !! Objects(t.kids[i])
    ensures Objects(WithKids(t, Without(t.kids, i))) + Objects(t.kids[i]) == Objects(t)
  {
    ApartAround(t.kids, i);
    ApartWithout(t.kids, i);
    ObjectsAround(t.kids, i);
  }

  /** `cJSON_DeleteItemFromArray`: the child at the index is gone and freed;
      past the end nothing happens. */
  method DeleteItemFromArray(parent: Node, which: int, ghost t: Tree, ghost live: set<object>)
    returns (ghost t': Tree, ghost live': set<object>)
    requires Holds(t) && Apart(t) && t.node == parent && !t.data.isRef && Objects(t) <= live
    modifies parent`child, Roots(t.kids)`next, Roots(t.kids)`prev
    ensures Clamp(which) >= |t.kids| ==> t' == t && live' == live
    ensures Clamp(which) < |t.kids| ==>
      && t' == WithKids(t, Without(t.kids, Clamp(which)))
      && live' == live - Objects(t.kids[Clamp(which)])
    ensures Holds(t') && Apart(t') && Objects(t') <= live'
  {
    hide Holds, Fields, Apart, AllApart, Objects;
    assert allocated(Objects(t));
    var c;
    InRange(t.kids, which);
    c, t' := DetachItemFromArray(parent, which, t);
    live' := live;
    if c != null {
      WithoutApart(t, Clamp(which));
      live' := DeleteItem(c, t.kids[Clamp(which)], live);
    }
  }

  lemma {:induction false} ExchangedApart(t: Tree, i: nat, k: Tree)
    requires Apart(t) && i < |t.kids| && Apart(k) && Objects(t) !! Objects(k)
    ensures Apart(WithKids(t, Exchanged(t.kids, i, k))) && Apart(t.kids[i])
    ensures Own(WithKids(t, Exchanged(t.kids, i, k))) == Own(t)
    ensures Own(t) !! Objects(t.kids[i]) && t.kids[i].node in Objects(t.kids[i])
    ensures Objects(t.kids[i]) !! AllObjects(Exchanged(t.kids, i, k))
    ensures Objects(WithKids(t, Exchanged(t.kids, i, k))) == Objects(t) - Objects(t.kids[i]) + Objects(k)
  {
    ApartAround(t.kids, i);
    ApartExchanged(t.kids, i, k);
    ObjectsAround(t.kids, i);
    ObjectsExchanged(t.kids, i, k);
  }

  /** Exchange the i-th child and delete the old one. */
  method ReplaceChild(parent: Node, c: Node, item: Node, ghost t: Tree, ghost i: nat, ghost k: Tree,
                      ghost live: set<object>)
    returns (ghost live': set<object>)
    requires Holds(t) && Apart(t) && t.node == parent && !t.data.isRef && Objects(t) <= live
    requires i < |t.kids| && c == t.kids[i].node
    requires Holds(k) && Apart(k) && k.node == item && Objects(t) !! Objects(k)
    modifies parent`child, item`next, item`prev, Roots(t.kids)`next, Roots(t.kids)`prev
    ensures Holds(WithKids(t, Exchanged(t.kids, i, k)))
    ensures live' == live - Objects(t.kids[i])
  {
    hide Holds, Fields, Apart, AllApart;
    assert allocated(Objects(t.kids[i]));
    Exchange(parent, c, item, t, i, k);
    ExchangedApart(t, i, k);
    ObjectsAround(t.kids, i);
    assert allocated(Own(WithKids(t, Exchanged(t.kids, i, k))));
    ClearLinks(c, t.kids[i], Exchanged(t.kids, i, k));
    Assemble(t, Exchanged(t.kids, i, k));
    assert allocated(Objects(WithKids(t, Exchanged(t.kids, i, k))));
    live' := DeleteItem(c, t.kids[i], live);
  }

  /** `cJSON_ReplaceItemInArray`: the child at the index is freed and `item` is
      in its place; past the end nothing happens, and `item` is not freed. */
  method ReplaceItemInArray(parent: Node, which: int, item: Node, ghost t: Tree, ghost k: Tree, ghost live: set<object>)
    returns (ghost t': Tree, ghost live': set<object>)
    requires Holds(t) && Apart(t) && t.node == parent && !t.data.isRef && Objects(t) <= live
    requires Holds(k) && Apart(k) && k.node == item && Objects(t) !! Objects(k)
    modifies parent`child, item`next, item`prev, Roots(t.kids)`next, Roots(t.kids)`prev
    ensures Clamp(which) >= |t.kids| ==> t' == t && live' == live
    ensures Clamp(which) < |t.kids| ==>
      && t' == WithKids(t, Exchanged(t.kids, Clamp(which), k))
      && live' == live - Objects(t.kids[Clamp(which)])
    ensures Holds(t') && Apart(t')
  {
    hide Holds, Fields, Apart, AllApart, Objects;
    assert allocated(Objects(t));
    InRange(t.kids, which);
    assert allocated(Objects(k));
    HoldsLists(t);
    var c := GetArrayItem(parent, which, t.kids);
    t', live' := t, live;
    if c != null {
      live' := ReplaceChild(parent, c, item, t, Clamp(which), k, live);
      t' := WithKids(t, Exchanged(t.kids, Clamp(which), k));
      ExchangedApart(t, Clamp(which), k);
    }
  }

  // ------------------------------------------------------------- by name

  /** A name that is present and equal to a non-null key up to case. */
  ghost predicate Matches(b: Block, key: Text) {
    b.Block? && CaseEqual(b.text, key)
  }

  /** The index of the first child that matches, or the number of children. */
  ghost function FirstMatch(ks: seq<Tree>, key: Text): (i: nat)
    ensures i <= |ks|
    ensures i < |ks| ==> Matches(ks[i].data.key, key)
    ensures forall j :: 0 <= j < i ==> !Matches(ks[j].data.key, key)
  {
    if ks == [] then 0
    else if Matches(ks[0].data.key, key) then 0
    else
      var i := FirstMatch(ks[1..], key);
      assert forall j :: 0 < j < i + 1 ==> ks[j] == ks[1..][j - 1];
      i + 1
  }

  /** The first child that matches, null when none does. */
  ghost function Found(ks: seq<Tree>, key: Text): Node? {
    if FirstMatch(ks, key) < |ks| then ks[FirstMatch(ks, key)].node else null
  }

  lemma {:induction false} CaseEqualPointwise(a: Text, b: Text)
    requires |a| == |b| && forall j :: 0 <= j < |a| ==> ToLower(a[j]) == ToLower(b[j])
    ensures CaseEqual(a, b)
  {
    assert Lower(a) == Lower(b);
  }

  lemma {:induction false} CaseEqualAt(a: Text, b: Text, j: nat)
    requires NulFree(a) && NulFree(b) && CaseEqual(a, b) && j <= |a|
    ensures ToLower(At(a, j)) == ToLower(At(b, j))
  {
    assert |Lower(a)| == |Lower(b)|;
    if j < |a| {
      assert Lower(a)[j] == Lower(b)[j];
    }
  }

  lemma {:induction false} LowerZero(b: byte)
    ensures ToLower(b) == 0 <==> b == 0
  {
  }

  /** `cJSON_strcasecmp` with a non-null second string. */
  method StrCaseCmp(s1: array?<byte>, s2: Text, ghost b: Block) returns (d: int)
    requires BlockIs(s1, b) && NulFree(s2)
    ensures d == 0 <==> Matches(b, s2)
    ensures d == 0 <==>
      && s1 != null && |b.text| == |s2|
      && forall i :: 0 <= i < |s2| ==>
           || b.text[i] == s2[i]
           || ('A' as int <= b.text[i] <= 'Z' as int && s2[i] == b.text[i] + 32)
           || ('A' as int <= s2[i] <= 'Z' as int && b.text[i] == s2[i] + 32)
  {
    if s1 == null {
      return 1;
    }
    var i := 0;
    while ToLower(s1[i]) == ToLower(At(s2, i))
      invariant 0 <= i <= |b.text| && i <= |s2|
      invariant forall j :: 0 <= j < i ==> ToLower(b.text[j]) == ToLower(s2[j])
      decreases |b.text| - i
    {
      LowerZero(s1[i]);
      LowerZero(At(s2, i));
      assert i < |b.text| ==> s1[..|b.text|][i] == s1[i] == b.text[i];
      if s1[i] == 0 {
        assert i == |b.text| == |s2|;
        CaseEqualPointwise(b.text, s2);
        CaseEqualIs(b.text, s2);
        return 0;
      }
      i := i + 1;
    }
    assert s1[i] == At(b.text, i) by {
      assert i < |b.text| ==> s1[..|b.text|][i] == s1[i];
    }
    if CaseEqual(b.text, s2) {
      CaseEqualAt(b.text, s2, i);
    }
    CaseEqualIs(b.text, s2);
    d := ToLower(s1[i]) - ToLower(At(s2, i));
  }

  lemma {:induction false} FirstMatchIs(ks: seq<Tree>, key: Text, i: nat)
    requires i <= |ks| && (i < |ks| ==> Matches(ks[i].data.key, key))
    requires forall j :: 0 <= j < i ==> !Matches(ks[j].data.key, key)
    ensures FirstMatch(ks, key) == i
  {
  }

  /** Walk the chain to the first child whose name matches, counting. */
  method FindItem(parent: Node, string_: Text, ghost ks: seq<Tree>) returns (c: Node?, i: nat)
    requires Lists(parent, ks) && NulFree(string_)
    ensures i == FirstMatch(ks, string_) && c == Found(ks, string_)
  {
    hide FirstMatch, Matches, BlockIs;
    c := parent.child;
    i := 0;
    assert ks[0..] == ks;
    while c != null
      invariant 0 <= i <= |ks|
      invariant Line(ks) && c == Head(ks[i..], null)
      invariant forall j :: 0 <= j < i ==> !Matches(ks[j].data.key, string_)
      decreases |ks| - i
    {
      LineAt(ks, i);
      assert allocated(AllObjects(ks));
      var d := StrCaseCmp(c.name, string_, ks[i].data.key);
      if d == 0 {
        break;
      }
      i, c := i + 1, c.next;
    }
    FirstMatchIs(ks, string_, i);
  }

  /** `cJSON_GetObjectItem`. */
  method GetObjectItem(parent: Node, string_: Text, ghost ks: seq<Tree>) returns (c: Node?)
    requires Lists(parent, ks) && NulFree(string_)
    ensures c == Found(ks, string_)
  {
    var i;
    c, i := FindItem(parent, string_, ks);
  }

  /** `cJSON_DetachItemFromObject`. */
  method DetachItemFromObject(parent: Node, string_: Text, ghost t: Tree) returns (c: Node?, ghost t': Tree)
    requires Holds(t) && Apart(t) && t.node == parent && !t.data.isRef && NulFree(string_)
    modifies parent`child, Roots(t.kids)`next, Roots(t.kids)`prev
    ensures c == Found(t.kids, string_) && Holds(t')
    ensures c == null ==> t' == t
    ensures c != null ==>
      var i := FirstMatch(t.kids, string_);
      && t' == WithKids(t, Without(t.kids, i))
      && Holds(t.kids[i]) && c.next == null && c.prev == null
  {
    hide Holds, Fields, Apart, FirstMatch;
    assert allocated(Objects(t));
    var i;
    HoldsLists(t);
    c, i := FindItem(parent, string_, t.kids);
    t' := t;
    if c != null {
      c, t' := DetachItemFromArray(parent, i, t);
    }
  }

  /** `cJSON_DeleteItemFromObject`: the first child that matches is gone and
      freed; nothing happens when none does. */
  method DeleteItemFromObject(parent: Node, string_: Text, ghost t: Tree, ghost live: set<object>)
    returns (ghost t': Tree, ghost live': set<object>)
    requires Holds(t) && Apart(t) && t.node == parent && !t.data.isRef && NulFree(string_) && Objects(t) <= live
    modifies parent`child, Roots(t.kids)`next, Roots(t.kids)`prev
    ensures FirstMatch(t.kids, string_) == |t.kids| ==> t' == t && live' == live
    ensures FirstMatch(t.kids, string_) < |t.kids| ==>
      && t' == WithKids(t, Without(t.kids, FirstMatch(t.kids, string_)))
      && live' == live - Objects(t.kids[FirstMatch(t.kids, string_)])
    ensures Holds(t') && Apart(t') && Objects(t') <= live'
  {
    hide Holds, Fields, Apart, AllApart, Objects, FirstMatch;
    assert allocated(Objects(t));
    var c;
    c, t' := DetachItemFromObject(parent, string_, t);
    live' := live;
    if c != null {
      WithoutApart(t, FirstMatch(t.kids, string_));
      live' := DeleteItem(c, t.kids[FirstMatch(t.kids, string_)], live);
    }
  }

  /** `cJSON_strdup`. */
  method StrDup(str: Text) returns (copy: array<byte>)
    requires NulFree(str)
    ensures fresh(copy) && copy.Length == |str| + 1 && IsCString(copy, str)
  {
    copy := new byte[|str| + 1](i requires 0 <= i <= |str| => if i < |str| then str[i] else 0);
    assert copy[..|str|] == str;
  }

  ghost function Renamed(k: Tree, a: array<byte>, s: Text): Tree {
    k.(data := k.data.(key := Block(a, s)))
  }

  lemma {:induction false} RenamedApart(k: Tree, a: array<byte>, s: Text)
    requires Apart(k) && a !in Objects(k)
    ensures Apart(Renamed(k, a, s))
    ensures Objects(Renamed(k, a, s)) == Objects(k) - k.data.key.Objects() + {a}
    ensures k.data.key.Objects() <= Objects(k)
  {
  }

  /** Give the node a copy of the name; the caller has dealt with the name it
      had. */
  method SetName(item: Node, string_: Text, ghost k: Tree) returns (ghost k': Tree)
    requires Holds(k) && Apart(k) && k.node == item && NulFree(string_)
    modifies item`name
    ensures k'.data.key.Block? && fresh(k'.data.key.a) && k' == Renamed(k, k'.data.key.a, string_)
    ensures Holds(k') && Apart(k')
    ensures Objects(k') == Objects(k) - k.data.key.Objects() + {k'.data.key.a}
  {
    assert allocated(Objects(k));
    var copy := StrDup(string_);
    item.name := copy;
    k' := Renamed(k, copy, string_);
    RenamedApart(k, copy, string_);
  }

  /** `cJSON_AddItemToObject`: the name the node had is freed, and the node is
      appended under a copy of the new one. */
  method AddItemToObject(parent: Node, string_: Text, item: Node, ghost t: Tree, ghost k: Tree, ghost live: set<object>)
    returns (ghost k': Tree, ghost live': set<object>)
    requires Holds(t) && Apart(t) && t.node == parent && !t.data.isRef && NulFree(string_)
    requires Holds(k) && Apart(k) && k.node == item && Objects(t) !! Objects(k)
    requires item.next == null && item.prev == null && Objects(k) <= live
    modifies item`name, parent`child, LastNode(t.kids)`next, item`prev
    ensures k'.data.key.Block? && fresh(k'.data.key.a) && k' == Renamed(k, k'.data.key.a, string_)
    ensures Apart(k') && Objects(t) !! Objects(k')
    ensures Holds(WithKids(t, t.kids + [k'])) && Apart(WithKids(t, t.kids + [k']))
    ensures Objects(WithKids(t, t.kids + [k'])) == Objects(t) + Objects(k')
    ensures live' == live - k.data.key.Objects() + {k'.data.key.a}
  {
    hide Holds, Apart, Objects;
    assert allocated(Objects(t)) && allocated(LastNode(t.kids));
    live' := FreeName(item, k, live);
    k' := SetName(item, string_, k);
    NotInside(t, k);
    GrownObjects(t, k');
    live' := live' + {k'.data.key.a};
    AddItemToArray(parent, item, t, k');
  }

  /** Free the name the node has, if any. */
  ghost method FreeName(item: Node, k: Tree, live: set<object>) returns (live': set<object>)
    requires Holds(k) && k.node == item && Objects(k) <= live
    ensures live' == live - k.data.key.Objects()
  {
    live' := live;
    if item.name != null {
      live' := Free(item.name, live');
    }
  }

  lemma {:induction false} NotInside(t: Tree, k: Tree)
    requires Objects(t) !! Objects(k)
    ensures k.node in Objects(k) && k.node !in Objects(t)
    ensures t.node in Objects(t) && LastNode(t.kids) <= Objects(t)
  {
    if t.kids != [] {
      LastInside(t.kids);
    }
  }

  /** `cJSON_ReplaceItemInObject`: the first child that matches is freed, and
      `item` is in its place under a copy of the given name; a name `item` had
      is not freed. Nothing happens when no child matches. */
  method ReplaceItemInObject(parent: Node, string_: Text, item: Node, ghost t: Tree, ghost k: Tree,
                             ghost live: set<object>)
    returns (ghost t': Tree, ghost k': Tree, ghost live': set<object>)
    requires Holds(t) && Apart(t) && t.node == parent && !t.data.isRef && NulFree(string_) && Objects(t) <= live
    requires Holds(k) && Apart(k) && k.node == item && Objects(t) !! Objects(k)
    modifies item`name, parent`child, item`next, item`prev, Roots(t.kids)`next, Roots(t.kids)`prev
    ensures FirstMatch(t.kids, string_) == |t.kids| ==> t' == t && k' == k && live' == live
    ensures FirstMatch(t.kids, string_) < |t.kids| ==>
      && k'.data.key.Block? && fresh(k'.data.key.a) && k' == Renamed(k, k'.data.key.a, string_)
      && t' == WithKids(t, Exchanged(t.kids, FirstMatch(t.kids, string_), k'))
      && live' == live + {k'.data.key.a} - Objects(t.kids[FirstMatch(t.kids, string_)])
    ensures Holds(t') && Apart(t') && Apart(k') && Objects(t) !! Objects(k')
  {
    hide Holds, Apart, Objects, FirstMatch;
    assert allocated(Objects(t)) && allocated(Objects(k));
    HoldsLists(t);
    var c, i := FindItem(parent, string_, t.kids);
    t', k', live' := t, k, live;
    if c != null {
      k' := SetName(item, string_, k);
      NotInside(t, k);
      assert Holds(t) && Objects(t) !! Objects(k');
      t', live' := ReplaceItemInArray(parent, i, item, t, k', live + {k'.data.key.a});
    }
  }

  // ---------------------------------------------------------- references

  /** The tree of a reference: it owns its node alone. */
  ghost function ReferenceTo(n: Node, t: Tree): Tree {
    Tree(n, t.data.(isRef := true, key := NoBlock), [])
  }

  /** `create_reference`: a copy of the node that shares its children and its
      string. */
  method CreateReference(item: Node, ghost t: Tree) returns (ref: Node, ghost r: Tree)
    requires Holds(t) && t.node == item
    ensures fresh(ref) && r == ReferenceTo(ref, t) && Holds(r) && Apart(r) && Objects(r) == {ref}
    ensures ref.child == item.child && ref.valuestring == item.valuestring
    ensures ref.next == null && ref.prev == null
  {
    ref := new Node();
    ref.child, ref.kind, ref.valuestring := item.child, item.kind, item.valuestring;
    ref.num, ref.dec := item.num, item.dec;
    ref.name := null;
    ref.isRef := true;
    ref.next, ref.prev := null, null;
    r := ReferenceTo(ref, t);
  }

  lemma {:induction false} OneItem(y: Tree)
    ensures ValuesOf([y]) == [ValueOf(y)] && (AllProper([y]) <==> Proper(y))
  {
    assert [y][1..] == [];
  }

  /** A chain that shows trees, below a node that is an array, shows an array. */
  lemma {:induction false} ArrayShows(t: Tree, r: Tree, ks: seq<Tree>)
    requires Holds(WithKids(t, t.kids + [r])) && Proper(t) && t.data.kind == KArray
    requires Row(ks) && Head(ks, null) == Head(t.kids + [r], null) && AllProper(ks)
    ensures Shows(WithKids(t, ks)) && Proper(WithKids(t, ks)) && ValueOf(WithKids(t, ks)) == Arr(ValuesOf(ks))
  {
  }

  lemma {:induction false} ArrayParts(t: Tree, r: Tree)
    requires Holds(WithKids(t, t.kids + [r])) && Proper(t)
    ensures Seg(null, t.kids + [r], null) && AllProper(t.kids) && Fields(r)
  {
    SegSnoc(null, t.kids, r, null);
  }

  /** An array that ends in a reference shows the shared tree as its last item,
      so that is what is printed, counted and looked up there. */
  lemma {:induction false} ReferenceIsItem(t: Tree, r: Tree, s: Tree)
    requires Holds(WithKids(t, t.kids + [r])) && Proper(t) && t.data.kind == KArray
    requires r == ReferenceTo(r.node, s) && Holds(s) && Proper(s)
    requires r.node.child == s.node.child && r.node.valuestring == s.node.valuestring
    ensures var x := WithKids(t, t.kids + [SeenAs(r.node, s)]);
      Shows(x) && Proper(x) && ValueOf(x) == Arr(ValuesOf(t.kids) + [ValueOf(s)])
  {
    var y := SeenAs(r.node, s);
    ArrayParts(t, r);
    HoldsShows(s);
    ReferenceShows(r.node, s);
    hide ValueOf, Proper, Seg, Shows, Row, ValuesOf;
    RowWithReference(null, t.kids, r, y);
    ProperConcat(t.kids, [y]);
    ValuesConcat(t.kids, [y]);
    OneItem(y);
    ArrayShows(t, r, t.kids + [y]);
  }

  /** `cJSON_AddItemReferenceToArray`: what the array comes to own is the new
      node only, so deleting the array leaves the shared tree in place. */
  method AddItemReferenceToArray(parent: Node, item: Node, ghost t: Tree, ghost s: Tree, ghost live: set<object>)
    returns (ghost r: Tree, ghost live': set<object>)
    requires Holds(t) && Apart(t) && t.node == parent && !t.data.isRef && Objects(t) <= live
    requires Holds(s) && s.node == item && Objects(t) !! Objects(s) && Objects(s) <= live
    modifies parent`child, LastNode(t.kids)`next
    ensures fresh(r.node) && r == ReferenceTo(r.node, s)
    ensures r.node.child == item.child && r.node.valuestring == item.valuestring
    ensures Holds(WithKids(t, t.kids + [r])) && Apart(WithKids(t, t.kids + [r]))
    ensures Objects(WithKids(t, t.kids + [r])) == Objects(t) + {r.node}
    ensures live' == live + {r.node}
    ensures Holds(s) && Objects(s) <= live' - Objects(WithKids(t, t.kids + [r]))
  {
    hide Holds, Apart, Objects;
    assert allocated(Objects(t)) && allocated(LastNode(t.kids)) && allocated(Objects(s));
    var ref;
    ref, r := CreateReference(item, s);
    NotInside(t, s);
    GrownObjects(t, r);
    assert Holds(s) && Holds(t);
    AddItemToArray(parent, ref, t, r);
    live' := live + {ref};
  }

  // -------------------------------------------------- which child matches

  lemma {:induction false} MatchConcat(a: seq<Tree>, b: seq<Tree>, key: Text)
    ensures FirstMatch(a + b, key)
         == if FirstMatch(a, key) < |a| then FirstMatch(a, key) else |a| + FirstMatch(b, key)
  {
    hide Matches;
    if a == [] {
      assert a + b == b;
    } else {
      MatchConcat(a[1..], b, key);
      assert (a + b)[1..] == a[1..] + b;
    }
  }

  lemma {:induction false} FoundConcat(a: seq<Tree>, b: seq<Tree>, key: Text)
    ensures Found(a + b, key) == if Found(a, key) != null then Found(a, key) else Found(b, key)
  {
    hide FirstMatch, Matches;
    MatchConcat(a, b, key);
  }

  lemma {:induction false} FoundOne(k: Tree, key: Text)
    ensures Found([k], key) == if Matches(k.data.key, key) then k.node else null
  {
    assert [k][1..] == [];
  }

  /** Adding under a key that is present leaves the child it selects unchanged;
      under one that is absent, the new child is selected. */
  lemma {:induction false} FoundAfterAdd(ks: seq<Tree>, k: Tree, key: Text)
    ensures Found(ks + [k], key)
         == if Found(ks, key) != null then Found(ks, key)
            else if Matches(k.data.key, key) then k.node else null
  {
    hide Found, Matches;
    FoundConcat(ks, [k], key);
    FoundOne(k, key);
  }

  /** A chain as the part before a child, the child, and the part after. */
  lemma {:induction false} FoundAround(a: seq<Tree>, k: Tree, b: seq<Tree>, key: Text)
    ensures Found(a + [k] + b, key)
         == if Found(a, key) != null then Found(a, key)
            else if Matches(k.data.key, key) then k.node else Found(b, key)
  {
    hide Found, Matches;
    FoundConcat(a + [k], b, key);
    FoundAfterAdd(a, k, key);
  }

  lemma {:induction false} NoneBefore(ks: seq<Tree>, key: Text)
    requires FirstMatch(ks, key) < |ks|
    ensures Found(ks[..FirstMatch(ks, key)], key) == null
  {
    var i := FirstMatch(ks, key);
    FirstMatchIs(ks[..i], key, i);
  }

  /** Matching is up to case on both sides. */
  lemma {:induction false} OtherName(b: Block, key: Text, other: Text)
    requires Matches(b, key) && !CaseEqual(key, other)
    ensures !Matches(b, other)
  {
  }

  lemma {:induction false} SplitAt(ks: seq<Tree>, i: nat)
    requires i < |ks|
    ensures ks == ks[..i] + [ks[i]] + ks[i + 1..]
  {
  }

  /** Deleting by name exposes the next child with that name, and leaves every
      other name as it was. */
  lemma {:induction false} FoundAfterDelete(ks: seq<Tree>, key: Text, other: Text)
    requires FirstMatch(ks, key) < |ks|
    ensures var i := FirstMatch(ks, key);
      && Found(Without(ks, i), key) == Found(ks[i + 1..], key)
      && (!CaseEqual(key, other) ==> Found(Without(ks, i), other) == Found(ks, other))
  {
    var i := FirstMatch(ks, key);
    NoneBefore(ks, key);
    FoundConcat(ks[..i], ks[i + 1..], key);
    if !CaseEqual(key, other) {
      OtherName(ks[i].data.key, key, other);
      hide Found, FirstMatch, Matches;
      SplitAt(ks, i);
      FoundAround(ks[..i], ks[i], ks[i + 1..], other);
      FoundConcat(ks[..i], ks[i + 1..], other);
    }
  }

  /** Replacing by name keeps the place and the number of children, and leaves
      every other name as it was. */
  lemma {:induction false} FoundAfterReplace(ks: seq<Tree>, key: Text, k: Tree, other: Text)
    requires FirstMatch(ks, key) < |ks| && k.data.key.Block? && k.data.key.text == key
    ensures var i := FirstMatch(ks, key);
      && FirstMatch(Exchanged(ks, i, k), key) == i
      && |Exchanged(ks, i, k)| == |ks|
      && Found(Exchanged(ks, i, k), key) == k.node
      && (!CaseEqual(key, other) ==> Found(Exchanged(ks, i, k), other) == Found(ks, other))
  {
    var i := FirstMatch(ks, key);
    FirstMatchIs(Exchanged(ks, i, k), key, i);
    if !CaseEqual(key, other) {
      OtherName(ks[i].data.key, key, other);
      OtherName(k.data.key, key, other);
      hide Found, FirstMatch, Matches;
      SplitAt(ks, i);
      FoundAround(ks[..i], ks[i], ks[i + 1..], other);
      FoundAround(ks[..i], k, ks[i + 1..], other);
    }
  }

  // ----------------------------------------------------------- new nodes

  ghost function Scalar(n: Node, kind: Kind, num: IntFields): Tree {
    Tree(n, Data(kind, false, num, Decimals(0, 0), NoBlock, NoBlock), [])
  }

  /** `cJSON_CreateObject` and `cJSON_CreateArray`. */
  method CreateContainer(kind: Kind) returns (item: Node, ghost k: Tree)
    requires kind == KArray || kind == KObject
    ensures fresh(item) && k == Scalar(item, kind, IntFields(0, 0)) && Objects(k) == {item}
    ensures Holds(k) && Apart(k) && Proper(k) && item.next == null && item.prev == null
    ensures ValueOf(k) == if kind == KArray then Arr([]) else Obj([])
  {
    item := new Node();
    item.kind := kind;
    k := Scalar(item, kind, IntFields(0, 0));
  }

  /** `cJSON_CreateInt`. */
  method CreateInt(num: uint64, sign: int) returns (item: Node, ghost k: Tree)
    ensures fresh(item) && k == Scalar(item, KInt, IntFields(sign, num)) && Objects(k) == {item}
    ensures Holds(k) && Apart(k) && Proper(k) && item.next == null && item.prev == null
    ensures ValueOf(k) == Int(Numeric(IntFields(sign, num)))
  {
    item := new Node();
    item.kind := KInt;
    item.num := IntFields(sign, num);
    k := Scalar(item, KInt, IntFields(sign, num));
  }
}

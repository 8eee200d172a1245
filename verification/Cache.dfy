/** The two caches of CJsonObject as a state machine: what every operation does
    to the children and to the cached pointers, when a cached pointer still is
    the one a fresh lookup would give, and what holds over whole runs. */
module Cache {
  import opened Bytes
  import opened Nodes
  import opened Chain
  import opened Items
  import opened Widths

  type uint32 = n: int | 0 <= n < TWO32

  /** A C++ string as the C code reads it: up to the first NUL. */
  function CStr(s: Text): (r: Text)
    ensures NulFree(r) && |r| <= |s|
    ensures NulFree(s) ==> r == s
  {
    if s == [] || s[0] == 0 then [] else [s[0]] + CStr(s[1..])
  }

  /** The C string is what stands in front of the first NUL. */
  lemma {:induction false} CStrIs(s: Text)
    ensures var r := CStr(s); r == s[..|r|] && (|r| < |s| ==> s[|r|] == 0) && 0 !in r
  {
    if s != [] && s[0] != 0 {
      CStrIs(s[1..]);
      assert s == [s[0]] + s[1..];
    }
  }

  /** A wrapper: whether it has a tree and of which kind, the children of its
      root, and for every index and key in a map the borrowed pointer of the
      wrapper cached for it. */
  datatype View = View(open: bool, kind: Kind, kids: seq<Tree>,
                       byIndex: map<uint32, Node?>, byKey: map<Text, Node?>)

  /** What `cJSON_GetArrayItem` selects: the index is converted to `int`. */
  ghost function LookupIndex(v: View, i: uint32): Node? {
    if v.open && v.kind == KArray then ItemAt(v.kids, AsInt32(i)) else null
  }

  /** What `cJSON_GetObjectItem` selects. */
  ghost function LookupKey(v: View, key: Text): Node? {
    if v.open && v.kind == KObject then Found(v.kids, CStr(key)) else null
  }

  /** Every cached pointer is what a fresh lookup would give. */
  ghost predicate IndexCoherent(v: View) {
    forall i | i in v.byIndex :: v.byIndex[i] == LookupIndex(v, i)
  }

  ghost predicate KeyCoherent(v: View) {
    forall k | k in v.byKey :: v.byKey[k] == LookupKey(v, k)
  }

  ghost predicate Coherent(v: View) { IndexCoherent(v) && KeyCoherent(v) }

  /** Every cached pointer that is not null is what a fresh lookup would give. */
  ghost predicate HitsLive(v: View) {
    && (forall i | i in v.byIndex :: v.byIndex[i] != null ==> v.byIndex[i] == LookupIndex(v, i))
    && (forall k | k in v.byKey :: v.byKey[k] != null ==> v.byKey[k] == LookupKey(v, k))
  }

  // ---------------------------------------------------------- operations

  /** The calls that look up or change the children. `evicts` tells the
      object-valued overloads, which drop cached wrappers, from the scalar ones
      and `AddEmptySub...`, which do not. `ChangeChild` is any change made below
      a child through the wrapper that was handed out for it: the node and its
      name stay, the tree below is another. `Open` is what a failing `Add` does
      to an empty wrapper. `Renew` is `Clear`, `Parse` and assignment: another
      tree or none, and empty maps. */
  datatype Op =
    | LookIndex(i: uint32)
    | LookKey(key: Text)
    | AddKey(key: Text, k: Tree, evicts: bool)
    | AddItem(k: Tree, evicts: bool)
    | AddFirst(k: Tree, evicts: bool)
    | ReplaceKey(key: Text, k: Tree, evicts: bool)
    | ReplaceAt(which: int, k: Tree, evicts: bool)
    | DeleteKey(key: Text)
    | DeleteAt(which: int)
    | ChangeChild(j: nat, k: Tree)
    | Open(kind: Kind)
    | Renew(open: bool, kind: Kind, kids: seq<Tree>)

  /** An empty wrapper creates the tree the call needs. */
  ghost function Opened(v: View, kind: Kind): View {
    if v.open then v else v.(open := true, kind := kind, kids := [])
  }

  /** Erase the entries at and past an index. */
  ghost function EvictFrom(m: map<uint32, Node?>, from: int): map<uint32, Node?> {
    map i | i in m && i < from :: m[i]
  }

  /** A signed index as the key of the map. */
  function Unsigned(which: int): uint32 { which % TWO32 }

  ghost function AddKeyStep(v: View, key: Text, k: Tree, evicts: bool): View {
    var w := Opened(v, KObject);
    if w.kind != KObject then w
    else w.(kids := w.kids + [k], byKey := if evicts then w.byKey - {key} else w.byKey)
  }

  ghost function AddItemStep(v: View, k: Tree, evicts: bool): View {
    var w := Opened(v, KArray);
    if w.kind != KArray then w
    else w.(kids := w.kids + [k], byIndex := if evicts then EvictFrom(w.byIndex, |w.kids|) else w.byIndex)
  }

  ghost function AddFirstStep(v: View, k: Tree, evicts: bool): View {
    var w := Opened(v, KArray);
    if w.kind != KArray then w
    else w.(kids := [k] + w.kids, byIndex := if evicts then map[] else w.byIndex)
  }

  ghost function ReplaceKeyStep(v: View, key: Text, k: Tree, evicts: bool): View {
    if !v.open || v.kind != KObject || FirstMatch(v.kids, CStr(key)) == |v.kids| then v
    else v.(kids := Exchanged(v.kids, FirstMatch(v.kids, CStr(key)), k),
            byKey := if evicts then v.byKey - {key} else v.byKey)
  }

  ghost function ReplaceAtStep(v: View, which: int, k: Tree, evicts: bool): View {
    if !v.open || v.kind != KArray || Clamp(which) >= |v.kids| then v
    else v.(kids := Exchanged(v.kids, Clamp(which), k),
            byIndex := if evicts then v.byIndex - {Unsigned(which)} else v.byIndex)
  }

  ghost function DeleteKeyStep(v: View, key: Text): View {
    if !v.open || v.kind != KObject then v
    else v.(kids := if FirstMatch(v.kids, CStr(key)) < |v.kids|
                    then Without(v.kids, FirstMatch(v.kids, CStr(key))) else v.kids,
            byKey := v.byKey - {key})
  }

  ghost function DeleteAtStep(v: View, which: int): View {
    if !v.open || v.kind != KArray then v
    else v.(kids := if Clamp(which) < |v.kids| then Without(v.kids, Clamp(which)) else v.kids,
            byIndex := EvictFrom(v.byIndex, Unsigned(which)))
  }

  ghost function ChangeChildStep(v: View, i: nat, k: Tree): View {
    if i < |v.kids| then v.(kids := Exchanged(v.kids, i, k)) else v
  }

  ghost function Step(v: View, op: Op): View {
    match op
    case LookIndex(i) => if i in v.byIndex then v else v.(byIndex := v.byIndex[i := LookupIndex(v, i)])
    case LookKey(key) => if key in v.byKey then v else v.(byKey := v.byKey[key := LookupKey(v, key)])
    case AddKey(key, k, e) => AddKeyStep(v, key, k, e)
    case AddItem(k, e) => AddItemStep(v, k, e)
    case AddFirst(k, e) => AddFirstStep(v, k, e)
    case ReplaceKey(key, k, e) => ReplaceKeyStep(v, key, k, e)
    case ReplaceAt(which, k, e) => ReplaceAtStep(v, which, k, e)
    case DeleteKey(key) => DeleteKeyStep(v, key)
    case DeleteAt(which) => DeleteAtStep(v, which)
    case ChangeChild(i, k) => ChangeChildStep(v, i, k)
    case Open(kind) => Opened(v, kind)
    case Renew(open, kind, ks) => View(open, kind, ks, map[], map[])
  }

  /** Two numbers that are the same 32 bits. */
  predicate SameWord(i: int, j: int) { (i - j) % 0x1_0000_0000 == 0 }

  /** Which entries a call leaves in the map for indexes. */
  ghost predicate StaysIndex(v: View, op: Op, i: uint32) {
    match op
    case AddItem(_, e) =>
      !e || (v.open && v.kind != KArray) || i < if v.open then |v.kids| else 0
    case AddFirst(_, e) => !e || (v.open && v.kind != KArray)
    case ReplaceAt(which, _, e) =>
      !e || !v.open || v.kind != KArray || (if which < 0 then 0 else which) >= |v.kids|
      || !SameWord(i, which)
    case DeleteAt(which) => !v.open || v.kind != KArray || i < which % 0x1_0000_0000
    case Renew(_, _, _) => false
    case _ => true
  }

  /** Which entries a call leaves in the map for keys. */
  ghost predicate StaysKey(v: View, op: Op, q: Text) {
    match op
    case AddKey(key, _, e) => !e || (v.open && v.kind != KObject) || q != key
    case ReplaceKey(key, _, e) =>
      !e || !v.open || v.kind != KObject || FirstMatch(v.kids, CStr(key)) == |v.kids| || q != key
    case DeleteKey(key) => !v.open || v.kind != KObject || q != key
    case Renew(_, _, _) => false
    case _ => true
  }

  /** Exactly these entries stay, each with its pointer, and only a lookup makes
      a new one. */
  lemma {:induction false} EntriesAfter(v: View, op: Op)
    ensures var w := Step(v, op);
      && (forall i | i in v.byIndex ::
            (i in w.byIndex <==> StaysIndex(v, op, i)) && (i in w.byIndex ==> w.byIndex[i] == v.byIndex[i]))
      && (forall i | i in w.byIndex && i !in v.byIndex :: op == LookIndex(i) && w.byIndex[i] == LookupIndex(v, i))
      && (forall q | q in v.byKey ::
            (q in w.byKey <==> StaysKey(v, op, q)) && (q in w.byKey ==> w.byKey[q] == v.byKey[q]))
      && (forall q | q in w.byKey && q !in v.byKey :: op == LookKey(q) && w.byKey[q] == LookupKey(v, q))
  {
    hide FirstMatch, CStr, Found;
    match op
    case ReplaceAt(which, _, _) =>
      forall i: uint32 ensures SameWord(i, which) <==> i == Unsigned(which) {
        SameUnsigned(i, which);
      }
    case _ =>
  }

  lemma {:induction false} SameUnsigned(i: uint32, which: int)
    ensures SameWord(i, which) <==> i == Unsigned(which)
  {
    var q, r := which / TWO32, which % TWO32;
    assert which == q * TWO32 + r;
    assert i - which == (i - r) + (-q) * TWO32;
    Shifted32(i - r, -q);
  }

  lemma {:induction false} Shifted32(x: int, q: int)
    ensures (x + q * 0x1_0000_0000) % 0x1_0000_0000 == x % 0x1_0000_0000
  {
  }

  /** The new child is a new tree, named with the key it is added under. */
  ghost predicate Fits(v: View, op: Op) {
    match op
    case AddKey(key, k, _) => NewChild(v, k) && k.data.key.Block? && k.data.key.text == CStr(key)
    case ReplaceKey(key, k, _) => NewChild(v, k) && k.data.key.Block? && k.data.key.text == CStr(key)
    case AddItem(k, _) => NewChild(v, k)
    case AddFirst(k, _) => NewChild(v, k)
    case ReplaceAt(_, k, _) => NewChild(v, k)
    case ChangeChild(i, k) => i < |v.kids| ==> SameChild(v.kids, i, k)
    case Renew(_, _, ks) => AllApart(ks)
    case _ => true
  }

  /** The same node under the same name, with a tree of its own below it. */
  ghost predicate SameChild(ks: seq<Tree>, i: nat, k: Tree)
    requires i < |ks|
  {
    && k.node == ks[i].node && k.data.key == ks[i].data.key && Apart(k)
    && Objects(k) !! AllObjects(ks[..i]) && Objects(k) !! AllObjects(ks[i + 1..])
  }

  ghost predicate NewChild(v: View, k: Tree) {
    Apart(k) && AllObjects(v.kids) !! Objects(k)
  }

  // ------------------------------------------------ when coherence is kept

  /** No key but `key` itself, and that one only if it is evicted, is cached
      for a name equal to it up to case. */
  ghost predicate OnlyKey(v: View, key: Text, evicts: bool) {
    forall q | q in v.byKey :: CaseEqual(CStr(key), CStr(q)) ==> evicts && q == key
  }

  /** The condition a caller can check before the call. */
  ghost predicate Safe(v: View, op: Op) {
    match op
    case AddKey(key, _, e) =>
      (v.open && (v.kind != KObject || Found(v.kids, CStr(key)) != null)) || OnlyKey(v, key, e)
    case AddItem(_, e) =>
      e || (v.open && v.kind != KArray)
      || forall i | i in v.byIndex :: Clamp(AsInt32(i)) != |Opened(v, KArray).kids|
    case AddFirst(_, e) =>
      e || (v.open && v.kind != KArray)
      || forall i | i in v.byIndex :: Clamp(AsInt32(i)) > |Opened(v, KArray).kids|
    case ReplaceKey(key, _, e) => LookupKey(v, key) == null || OnlyKey(v, key, e)
    case ReplaceAt(which, _, e) =>
      !v.open || v.kind != KArray || Clamp(which) >= |v.kids|
      || forall i | i in v.byIndex :: Clamp(AsInt32(i)) == Clamp(which) ==> e && i == Unsigned(which)
    case DeleteKey(key) => LookupKey(v, key) == null || OnlyKey(v, key, true)
    case DeleteAt(which) =>
      !v.open || v.kind != KArray
      || forall i | i in v.byIndex && i < Unsigned(which) :: !(Clamp(which) <= Clamp(AsInt32(i)) < |v.kids|)
    case _ => true
  }

  /** Dropping entries leaves the rest to be compared with the old lookups. */
  lemma {:induction false} KeysAfter(v: View, w: View)
    requires KeyCoherent(v)
    requires forall q | q in w.byKey :: q in v.byKey && w.byKey[q] == v.byKey[q]
    ensures KeyCoherent(w) <==> forall q | q in w.byKey :: LookupKey(w, q) == LookupKey(v, q)
  {
  }

  lemma {:induction false} IndexesAfter(v: View, w: View)
    requires IndexCoherent(v)
    requires forall i | i in w.byIndex :: i in v.byIndex && w.byIndex[i] == v.byIndex[i]
    ensures IndexCoherent(w) <==> forall i | i in w.byIndex :: LookupIndex(w, i) == LookupIndex(v, i)
  {
  }

  /** An operation on objects leaves every index lookup null, and the other way
      around. */
  lemma {:induction false} OtherMap(v: View, w: View)
    requires Coherent(v) && w.open && (v.open ==> v.kind == w.kind)
    ensures w.kind == KObject && w.byIndex == v.byIndex ==> IndexCoherent(w)
    ensures w.kind == KArray && w.byKey == v.byKey ==> KeyCoherent(w)
  {
  }

  lemma {:induction false} FoundUpToCase(ks: seq<Tree>, a: Text, b: Text)
    requires CaseEqual(a, b)
    ensures FirstMatch(ks, a) == FirstMatch(ks, b) && Found(ks, a) == Found(ks, b)
  {
    FirstMatchIs(ks, a, FirstMatch(ks, b));
  }

  lemma {:induction false} ChildInside(ks: seq<Tree>, i: nat)
    requires i < |ks|
    ensures ks[i].node in Objects(ks[i]) && Objects(ks[i]) <= AllObjects(ks)
  {
    ObjectsAround(ks, i);
  }

  /** A new child is none of the old ones. */
  lemma {:induction false} NewIsNot(v: View, k: Tree, i: nat)
    requires NewChild(v, k) && i < |v.kids|
    ensures v.kids[i].node != k.node
  {
    ChildInside(v.kids, i);
    assert k.node in Objects(k);
  }

  lemma {:induction false} Distinct(ks: seq<Tree>, i: nat, j: nat)
    requires AllApart(ks) && i < j < |ks|
    ensures ks[i].node != ks[j].node
  {
    ApartAround(ks, i);
    ChildInside(ks, i);
    ChildInside(ks[i + 1..], j - i - 1);
  }

  // --------------------------------------------------------------- by key

  lemma {:induction false} LookupAfterAdd(ks: seq<Tree>, key: Text, k: Tree, q: Text)
    requires k.data.key.Block? && k.data.key.text == key
    ensures Found(ks + [k], q) == Found(ks, q) <==> (CaseEqual(key, q) ==> Found(ks, key) != null)
    ensures Found(ks, q) != null ==> Found(ks + [k], q) == Found(ks, q)
  {
    FoundAfterAdd(ks, k, q);
    if CaseEqual(key, q) {
      FoundUpToCase(ks, key, q);
    }
  }

  lemma {:induction false} AddKeyExact(v: View, key: Text, k: Tree, e: bool)
    requires Coherent(v) && AllApart(v.kids) && Fits(v, AddKey(key, k, e))
    ensures Coherent(AddKeyStep(v, key, k, e)) <==> Safe(v, AddKey(key, k, e))
  {
    hide Found, FirstMatch, CaseEqual, CStr;
    var w := AddKeyStep(v, key, k, e);
    if v.open && v.kind != KObject {
      return;
    }
    OtherMap(v, w);
    KeysAfter(v, w);
    var ks := Opened(v, KObject).kids;
    forall q ensures LookupKey(w, q) == LookupKey(v, q)
      <==> (CaseEqual(CStr(key), CStr(q)) ==> Found(ks, CStr(key)) != null)
    {
      LookupAfterAdd(ks, CStr(key), k, CStr(q));
      EmptyFound(CStr(q));
    }
    EmptyFound(CStr(key));
  }

  lemma {:induction false} EmptyFound(q: Text)
    ensures Found([], q) == null
  {
  }

  lemma {:induction false} LookupAfterReplace(v: View, key: Text, k: Tree, q: Text)
    requires FirstMatch(v.kids, key) < |v.kids| && NewChild(v, k)
    requires k.data.key.Block? && k.data.key.text == key
    ensures Found(Exchanged(v.kids, FirstMatch(v.kids, key), k), q) == Found(v.kids, q) <==> !CaseEqual(key, q)
  {
    hide FirstMatch, Matches, CaseEqual, NewChild, Exchanged;
    var i := FirstMatch(v.kids, key);
    FoundAfterReplace(v.kids, key, k, q);
    if CaseEqual(key, q) {
      FoundUpToCase(v.kids, key, q);
      FoundUpToCase(Exchanged(v.kids, i, k), key, q);
      NewIsNot(v, k, i);
    }
  }

  /** An operation that changes the lookup of the keys equal to `key` up to
      case, and no other, keeps coherence when none of them stays cached. */
  lemma {:induction false} KeysExact(v: View, w: View, key: Text, e: bool)
    requires KeyCoherent(v) && w.byKey == if e then v.byKey - {key} else v.byKey
    requires forall q | q in w.byKey :: LookupKey(w, q) == LookupKey(v, q) <==> !CaseEqual(CStr(key), CStr(q))
    ensures KeyCoherent(w) <==> OnlyKey(v, key, e)
  {
    hide LookupKey, CaseEqual, CStr;
    KeysAfter(v, w);
  }

  lemma {:induction false} FoundWhen(ks: seq<Tree>, key: Text)
    ensures Found(ks, key) != null <==> FirstMatch(ks, key) < |ks|
  {
  }

  lemma {:induction false} ReplaceKeyExact(v: View, key: Text, k: Tree, e: bool)
    requires Coherent(v) && AllApart(v.kids) && Fits(v, ReplaceKey(key, k, e))
    ensures Coherent(ReplaceKeyStep(v, key, k, e)) <==> Safe(v, ReplaceKey(key, k, e))
  {
    var w := ReplaceKeyStep(v, key, k, e);
    FoundWhen(v.kids, CStr(key));
    if v.open && v.kind == KObject && FirstMatch(v.kids, CStr(key)) < |v.kids| {
      hide FirstMatch, Found, CaseEqual, CStr, AllApart, NewChild, OnlyKey;
      OtherMap(v, w);
      forall q | q in w.byKey ensures LookupKey(w, q) == LookupKey(v, q) <==> !CaseEqual(CStr(key), CStr(q)) {
        LookupAfterReplace(v, CStr(key), k, CStr(q));
      }
      KeysExact(v, w, key, e);
    }
  }

  lemma {:induction false} LookupAfterDelete(ks: seq<Tree>, key: Text, q: Text)
    requires FirstMatch(ks, key) < |ks| && AllApart(ks)
    ensures Found(Without(ks, FirstMatch(ks, key)), q) == Found(ks, q) <==> !CaseEqual(key, q)
  {
    hide FirstMatch, Matches, CaseEqual, AllApart, Without;
    var i := FirstMatch(ks, key);
    FoundAfterDelete(ks, key, q);
    if CaseEqual(key, q) {
      FoundUpToCase(ks, key, q);
      FoundUpToCase(Without(ks, i), key, q);
      var f := FirstMatch(ks[i + 1..], key);
      if f < |ks[i + 1..]| {
        Distinct(ks, i, i + 1 + f);
      }
    }
  }

  lemma {:induction false} DeleteKeyExact(v: View, key: Text)
    requires Coherent(v) && AllApart(v.kids)
    ensures Coherent(DeleteKeyStep(v, key)) <==> Safe(v, DeleteKey(key))
  {
    hide KeyCoherent, IndexCoherent;
    var w := DeleteKeyStep(v, key);
    FoundWhen(v.kids, CStr(key));
    if v.open && v.kind == KObject {
      hide FirstMatch, Found, CaseEqual, CStr, AllApart, OnlyKey;
      OtherMap(v, w);
      if FirstMatch(v.kids, CStr(key)) < |v.kids| {
        forall q | q in w.byKey ensures LookupKey(w, q) == LookupKey(v, q) <==> !CaseEqual(CStr(key), CStr(q)) {
          LookupAfterDelete(v.kids, CStr(key), CStr(q));
        }
        KeysExact(v, w, key, true);
      } else {
        KeysAfter(v, w);
      }
    }
  }

  // ------------------------------------------------------------- by index

  lemma {:induction false} ItemAfterAdd(ks: seq<Tree>, k: Tree, c: int)
    ensures ItemAt(ks + [k], c) == ItemAt(ks, c) <==> Clamp(c) != |ks|
  {
  }

  lemma {:induction false} AddItemExact(v: View, k: Tree, e: bool)
    requires Coherent(v) && AllApart(v.kids) && Fits(v, AddItem(k, e))
    ensures Coherent(AddItemStep(v, k, e)) <==> Safe(v, AddItem(k, e))
  {
    hide ItemAt, AsInt32;
    var w := AddItemStep(v, k, e);
    if v.open && v.kind != KArray {
      return;
    }
    OtherMap(v, w);
    IndexesAfter(v, w);
    var ks := Opened(v, KArray).kids;
    forall i: uint32 ensures LookupIndex(w, i) == LookupIndex(v, i) <==> Clamp(AsInt32(i)) != |ks| {
      ItemAfterAdd(ks, k, AsInt32(i));
      EmptyItem(AsInt32(i));
    }
    forall i: uint32 | i < |ks| ensures Clamp(AsInt32(i)) != |ks| {
      AsInt32Is(i);
    }
  }

  lemma {:induction false} EmptyItem(c: int)
    ensures ItemAt([], c) == null
  {
  }

  lemma {:induction false} AsInt32Is(i: uint32)
    ensures AsInt32(i) == if i >= TWO31 then i - TWO32 else i
  {
  }

  lemma {:induction false} ItemAfterAddFirst(v: View, k: Tree, c: int)
    requires AllApart(v.kids) && NewChild(v, k)
    ensures ItemAt([k] + v.kids, c) == ItemAt(v.kids, c) <==> Clamp(c) > |v.kids|
  {
    var j := Clamp(c);
    if j == 0 {
      if v.kids != [] {
        NewIsNot(v, k, 0);
      }
    } else if j < |v.kids| {
      Distinct(v.kids, j - 1, j);
    }
  }

  lemma {:induction false} AddFirstExact(v: View, k: Tree, e: bool)
    requires Coherent(v) && AllApart(v.kids) && Fits(v, AddFirst(k, e))
    ensures Coherent(AddFirstStep(v, k, e)) <==> Safe(v, AddFirst(k, e))
  {
    hide ItemAt, AsInt32, NewChild;
    var w := AddFirstStep(v, k, e);
    if v.open && v.kind != KArray {
      return;
    }
    OtherMap(v, w);
    IndexesAfter(v, w);
    var o := Opened(v, KArray);
    assert NewChild(o, k) by {
      NewInEmpty(v, k);
    }
    forall i: uint32 ensures LookupIndex(w, i) == LookupIndex(v, i) <==> Clamp(AsInt32(i)) > |o.kids| {
      ItemAfterAddFirst(o, k, AsInt32(i));
      EmptyItem(AsInt32(i));
    }
  }

  lemma {:induction false} NewInEmpty(v: View, k: Tree)
    requires NewChild(v, k)
    ensures NewChild(Opened(v, KArray), k) && NewChild(Opened(v, KObject), k)
  {
  }

  lemma {:induction false} ItemAfterReplace(v: View, p: nat, k: Tree, c: int)
    requires AllApart(v.kids) && NewChild(v, k) && p < |v.kids|
    ensures ItemAt(Exchanged(v.kids, p, k), c) == ItemAt(v.kids, c) <==> Clamp(c) != p
  {
    NewIsNot(v, k, p);
  }

  lemma {:induction false} ReplaceAtExact(v: View, which: int, k: Tree, e: bool)
    requires Coherent(v) && AllApart(v.kids) && Fits(v, ReplaceAt(which, k, e))
    ensures Coherent(ReplaceAtStep(v, which, k, e)) <==> Safe(v, ReplaceAt(which, k, e))
  {
    hide ItemAt, AsInt32, NewChild, Unsigned;
    var w := ReplaceAtStep(v, which, k, e);
    if v.open && v.kind == KArray && Clamp(which) < |v.kids| {
      OtherMap(v, w);
      IndexesAfter(v, w);
      forall i: uint32 ensures LookupIndex(w, i) == LookupIndex(v, i) <==> Clamp(AsInt32(i)) != Clamp(which) {
        ItemAfterReplace(v, Clamp(which), k, AsInt32(i));
      }
    }
  }

  lemma {:induction false} ItemAfterDelete(ks: seq<Tree>, p: nat, c: int)
    requires AllApart(ks) && p < |ks|
    ensures ItemAt(Without(ks, p), c) == ItemAt(ks, c) <==> !(p <= Clamp(c) < |ks|)
  {
    var j := Clamp(c);
    if p <= j && j + 1 < |ks| {
      Distinct(ks, j, j + 1);
    }
  }

  lemma {:induction false} DeleteAtExact(v: View, which: int)
    requires Coherent(v) && AllApart(v.kids)
    ensures Coherent(DeleteAtStep(v, which)) <==> Safe(v, DeleteAt(which))
  {
    hide ItemAt, AsInt32, Unsigned;
    var w := DeleteAtStep(v, which);
    if v.open && v.kind == KArray {
      OtherMap(v, w);
      IndexesAfter(v, w);
      if Clamp(which) < |v.kids| {
        forall i: uint32 ensures LookupIndex(w, i) == LookupIndex(v, i)
          <==> !(Clamp(which) <= Clamp(AsInt32(i)) < |v.kids|)
        {
          ItemAfterDelete(v.kids, Clamp(which), AsInt32(i));
        }
      }
    }
  }

  // ------------------------------------------------------ below a child

  lemma {:induction false} LookupAfterChange(v: View, i: nat, k: Tree, c: int, key: Text)
    requires i < |v.kids| && SameChild(v.kids, i, k)
    ensures ItemAt(Exchanged(v.kids, i, k), c) == ItemAt(v.kids, c)
    ensures Found(Exchanged(v.kids, i, k), key) == Found(v.kids, key)
  {
    hide Found, Matches, Apart, Objects, AllObjects;
    SplitAt(v.kids, i);
    FoundAround(v.kids[..i], v.kids[i], v.kids[i + 1..], key);
    FoundAround(v.kids[..i], k, v.kids[i + 1..], key);
  }

  /** A change below a child changes no lookup. */
  lemma {:induction false} ChangeKeepsLookups(v: View, j: nat, k: Tree, i: uint32, key: Text)
    requires Fits(v, ChangeChild(j, k))
    ensures LookupIndex(ChangeChildStep(v, j, k), i) == LookupIndex(v, i)
    ensures LookupKey(ChangeChildStep(v, j, k), key) == LookupKey(v, key)
  {
    hide ItemAt, Found, SameChild, Exchanged;
    if j < |v.kids| {
      LookupAfterChange(v, j, k, AsInt32(i), CStr(key));
    }
  }

  lemma {:induction false} ChangeExact(v: View, j: nat, k: Tree)
    requires Fits(v, ChangeChild(j, k))
    ensures Coherent(v) ==> Coherent(ChangeChildStep(v, j, k))
    ensures HitsLive(v) ==> HitsLive(ChangeChildStep(v, j, k))
  {
    var w := ChangeChildStep(v, j, k);
    forall i: uint32 ensures LookupIndex(w, i) == LookupIndex(v, i) {
      ChangeKeepsLookups(v, j, k, i, []);
    }
    forall key: Text ensures LookupKey(w, key) == LookupKey(v, key) {
      ChangeKeepsLookups(v, j, k, 0, key);
    }
    hide LookupIndex, LookupKey, SameChild;
  }

  lemma {:induction false} ChangeApart(ks: seq<Tree>, i: nat, k: Tree)
    requires AllApart(ks) && i < |ks| && SameChild(ks, i, k)
    ensures AllApart(Exchanged(ks, i, k))
  {
    hide Apart, AllApart, Objects, AllObjects;
    ApartAround(ks, i);
    ApartSnoc(ks[..i], k);
    ObjectsSnoc(ks[..i], k);
    ApartConcat(ks[..i] + [k], ks[i + 1..]);
  }

  /** A new empty tree has nothing to be found, as an empty wrapper has not. */
  lemma {:induction false} OpenKeeps(v: View, kind: Kind)
    ensures Coherent(v) ==> Coherent(Opened(v, kind))
    ensures HitsLive(v) ==> HitsLive(Opened(v, kind))
  {
    var w := Opened(v, kind);
    forall i: uint32 ensures LookupIndex(w, i) == LookupIndex(v, i) {
      EmptyItem(AsInt32(i));
    }
    forall key: Text ensures LookupKey(w, key) == LookupKey(v, key) {
      EmptyFound(CStr(key));
    }
    hide LookupIndex, LookupKey;
  }

  /** A coherent wrapper stays coherent exactly when the condition holds. */
  lemma {:induction false} CoherentExactlyWhenSafe(v: View, op: Op)
    requires Coherent(v) && AllApart(v.kids) && Fits(v, op)
    ensures Coherent(Step(v, op)) <==> Safe(v, op)
  {
    hide AddKeyStep, AddItemStep, AddFirstStep, ReplaceKeyStep, ReplaceAtStep, DeleteKeyStep, DeleteAtStep;
    hide ChangeChildStep;
    match op
    case LookIndex(i) =>
    case LookKey(key) =>
    case AddKey(key, k, e) => AddKeyExact(v, key, k, e);
    case AddItem(k, e) => AddItemExact(v, k, e);
    case AddFirst(k, e) => AddFirstExact(v, k, e);
    case ReplaceKey(key, k, e) => ReplaceKeyExact(v, key, k, e);
    case ReplaceAt(which, k, e) => ReplaceAtExact(v, which, k, e);
    case DeleteKey(key) => DeleteKeyExact(v, key);
    case DeleteAt(which) => DeleteAtExact(v, which);
    case ChangeChild(i, k) => ChangeExact(v, i, k);
    case Open(kind) => OpenKeeps(v, kind);
    case Renew(_, _, _) =>
  }

  // ------------------------------------------------------------ whole runs

  /** No two keys are equal up to case. */
  ghost predicate CaseDistinct(keys: set<Text>) {
    forall a, b | a in keys && b in keys :: CaseEqual(CStr(a), CStr(b)) ==> a == b
  }

  /** A call of a run that keeps to `keys` and to indexes that are `int`s: the
      object-valued overloads, the lookups, whatever is done below a child
      through the wrapper handed out for it, and a new tree for the wrapper
      itself. */
  ghost predicate Kept(op: Op, keys: set<Text>) {
    match op
    case LookIndex(i) => i < TWO31
    case LookKey(key) => key in keys
    case AddKey(key, _, e) => key in keys && e
    case AddItem(_, e) => e
    case AddFirst(_, e) => e
    case ReplaceKey(key, _, e) => key in keys && e
    case ReplaceAt(which, _, e) => e && 0 <= which < TWO31
    case DeleteKey(key) => key in keys
    case DeleteAt(which) => 0 <= which < TWO31
    case ChangeChild(_, _) => true
    case Open(_) => true
    case Renew(_, _, _) => true
  }

  ghost predicate Within(v: View, keys: set<Text>) {
    (forall q | q in v.byKey :: q in keys) && (forall i | i in v.byIndex :: i < TWO31)
  }

  lemma {:induction false} KeptIsSafe(v: View, op: Op, keys: set<Text>)
    requires Within(v, keys) && CaseDistinct(keys) && Kept(op, keys)
    ensures Safe(v, op)
  {
    hide CaseEqual, CStr, Found, FirstMatch;
  }

  lemma {:induction false} StepWithin(v: View, op: Op, keys: set<Text>)
    requires Within(v, keys) && (Kept(op, keys) || ScalarAdd(op))
    ensures Within(Step(v, op), keys)
  {
    hide CaseEqual, CStr, Found, FirstMatch;
  }

  lemma {:induction false} StepApart(v: View, op: Op)
    requires AllApart(v.kids) && Fits(v, op)
    ensures AllApart(Step(v, op).kids)
  {
    hide FirstMatch, Apart, AllApart, Objects;
    match op
    case AddKey(key, k, e) => AppendApart(Opened(v, KObject), k);
    case AddItem(k, e) => AppendApart(Opened(v, KArray), k);
    case AddFirst(k, e) =>
      var o := Opened(v, KArray);
      AppendApart(o, k);
      ApartConcat([k], o.kids);
      SegOne(null, k, null);
    case ReplaceKey(key, k, e) =>
      if FirstMatch(v.kids, CStr(key)) < |v.kids| {
        ApartExchanged(v.kids, FirstMatch(v.kids, CStr(key)), k);
      }
    case ReplaceAt(which, k, e) =>
      if Clamp(which) < |v.kids| {
        ApartExchanged(v.kids, Clamp(which), k);
      }
    case DeleteKey(key) =>
      if FirstMatch(v.kids, CStr(key)) < |v.kids| {
        ApartWithout(v.kids, FirstMatch(v.kids, CStr(key)));
      }
    case DeleteAt(which) =>
      if Clamp(which) < |v.kids| {
        ApartWithout(v.kids, Clamp(which));
      }
    case ChangeChild(i, k) =>
      if i < |v.kids| {
        ChangeApart(v.kids, i, k);
      }
    case Open(_) => NoneApart();
    case _ =>
  }

  lemma {:induction false} NoneApart()
    ensures AllApart([])
  {
  }

  lemma {:induction false} AppendApart(o: View, k: Tree)
    requires (AllApart(o.kids) && NewChild(o, k)) || (o.kids == [] && Apart(k))
    ensures AllApart(o.kids + [k]) && AllApart(o.kids) && NewChild(o, k)
  {
    ApartSnoc(o.kids, k);
  }

  ghost function Run(v: View, ops: seq<Op>): View
    decreases ops
  {
    if ops == [] then v else Run(Step(v, ops[0]), ops[1..])
  }

  ghost predicate RunFits(v: View, ops: seq<Op>)
    decreases ops
  {
    ops == [] || (Fits(v, ops[0]) && RunFits(Step(v, ops[0]), ops[1..]))
  }

  /** Over every run of lookups, object-valued calls, deletes and changes below
      children that uses no two keys equal up to case, every cached pointer stays
      the one a fresh lookup would give. */
  lemma {:induction false} RunsStayCoherent(v: View, ops: seq<Op>, keys: set<Text>)
    requires Coherent(v) && AllApart(v.kids) && Within(v, keys) && CaseDistinct(keys)
    requires RunFits(v, ops) && forall op | op in ops :: Kept(op, keys)
    ensures Coherent(Run(v, ops))
    decreases ops
  {
    hide Step, Fits, Kept, Coherent, Within, CaseDistinct, AllApart, Safe;
    if ops != [] {
      var op := ops[0];
      assert Kept(op, keys);
      KeptIsSafe(v, op, keys);
      CoherentExactlyWhenSafe(v, op);
      StepApart(v, op);
      StepWithin(v, op, keys);
      RunsStayCoherent(Step(v, op), ops[1..], keys);
    }
  }

  // ------------------------------------------------------------- hits only

  /** The overloads that append without evicting. */
  ghost predicate ScalarAdd(op: Op) {
    (op.AddKey? || op.AddItem?) && !op.evicts
  }

  /** A cached hit is kept by a step that keeps every lookup that finds a node. */
  lemma {:induction false} HitsAfter(v: View, w: View)
    requires HitsLive(v)
    requires forall q | q in w.byKey :: q in v.byKey && w.byKey[q] == v.byKey[q]
    requires forall i | i in w.byIndex :: i in v.byIndex && w.byIndex[i] == v.byIndex[i]
    requires forall q | q in w.byKey && LookupKey(v, q) != null :: LookupKey(w, q) == LookupKey(v, q)
    requires forall i | i in w.byIndex && LookupIndex(v, i) != null :: LookupIndex(w, i) == LookupIndex(v, i)
    ensures HitsLive(w)
  {
  }

  lemma {:induction false} AddKeyKeepsHits(v: View, key: Text, k: Tree, e: bool)
    requires HitsLive(v) && Fits(v, AddKey(key, k, e))
    ensures HitsLive(AddKeyStep(v, key, k, e))
  {
    hide Found, FirstMatch, CaseEqual, CStr, ItemAt;
    var w := AddKeyStep(v, key, k, e);
    forall q | LookupKey(v, q) != null ensures LookupKey(w, q) == LookupKey(v, q) {
      LookupAfterAdd(v.kids, CStr(key), k, CStr(q));
    }
    HitsAfter(v, w);
  }

  lemma {:induction false} AddItemKeepsHits(v: View, k: Tree, e: bool)
    requires HitsLive(v)
    ensures HitsLive(AddItemStep(v, k, e))
  {
    hide Found, AsInt32;
    var w := AddItemStep(v, k, e);
    forall i: uint32 | LookupIndex(v, i) != null ensures LookupIndex(w, i) == LookupIndex(v, i) {
      ItemAfterAdd(v.kids, k, AsInt32(i));
    }
    HitsAfter(v, w);
  }

  lemma {:induction false} ReplaceKeyKeepsHits(v: View, key: Text, k: Tree, keys: set<Text>)
    requires HitsLive(v) && Fits(v, ReplaceKey(key, k, true))
    requires Within(v, keys) && CaseDistinct(keys) && key in keys
    ensures HitsLive(ReplaceKeyStep(v, key, k, true))
  {
    var w := ReplaceKeyStep(v, key, k, true);
    if v.open && v.kind == KObject && FirstMatch(v.kids, CStr(key)) < |v.kids| {
      hide Found, FirstMatch, CaseEqual, CStr, ItemAt;
      forall q | q in w.byKey ensures LookupKey(w, q) == LookupKey(v, q) {
        LookupAfterReplace(v, CStr(key), k, CStr(q));
      }
      HitsAfter(v, w);
    }
  }

  lemma {:induction false} ReplaceAtKeepsHits(v: View, which: int, k: Tree, keys: set<Text>)
    requires HitsLive(v) && AllApart(v.kids) && Fits(v, ReplaceAt(which, k, true))
    requires Within(v, keys) && 0 <= which < TWO31
    ensures HitsLive(ReplaceAtStep(v, which, k, true))
  {
    hide ItemAt, NewChild, AsInt32;
    var w := ReplaceAtStep(v, which, k, true);
    if v.open && v.kind == KArray && which < |v.kids| {
      forall i | i in w.byIndex ensures LookupIndex(w, i) == LookupIndex(v, i) {
        AsInt32Is(i);
        ItemAfterReplace(v, which, k, AsInt32(i));
      }
      HitsAfter(v, w);
    }
  }

  lemma {:induction false} DeleteKeyKeepsHits(v: View, key: Text, keys: set<Text>)
    requires HitsLive(v) && AllApart(v.kids)
    requires Within(v, keys) && CaseDistinct(keys) && key in keys
    ensures HitsLive(DeleteKeyStep(v, key))
  {
    var w := DeleteKeyStep(v, key);
    if v.open && v.kind == KObject {
      hide Found, FirstMatch, CaseEqual, CStr, ItemAt;
      if FirstMatch(v.kids, CStr(key)) < |v.kids| {
        forall q | q in w.byKey ensures LookupKey(w, q) == LookupKey(v, q) {
          LookupAfterDelete(v.kids, CStr(key), CStr(q));
        }
      }
      HitsAfter(v, w);
    }
  }

  lemma {:induction false} DeleteAtKeepsHits(v: View, which: int, keys: set<Text>)
    requires HitsLive(v) && AllApart(v.kids) && Within(v, keys) && 0 <= which < TWO31
    ensures HitsLive(DeleteAtStep(v, which))
  {
    hide ItemAt, AsInt32;
    var w := DeleteAtStep(v, which);
    if v.open && v.kind == KArray {
      if which < |v.kids| {
        forall i | i in w.byIndex ensures LookupIndex(w, i) == LookupIndex(v, i) {
          AsInt32Is(i);
          ItemAfterDelete(v.kids, which, AsInt32(i));
        }
      }
      HitsAfter(v, w);
    }
  }

  lemma {:induction false} StepKeepsHits(v: View, op: Op, keys: set<Text>)
    requires HitsLive(v) && AllApart(v.kids) && Fits(v, op)
    requires Within(v, keys) && CaseDistinct(keys) && (Kept(op, keys) || ScalarAdd(op))
    ensures HitsLive(Step(v, op))
  {
    hide AddKeyStep, AddItemStep, ReplaceKeyStep, ReplaceAtStep, DeleteKeyStep, DeleteAtStep;
    hide CaseDistinct, AllApart, Within, NewChild, ChangeChildStep;
    match op
    case LookIndex(i) =>
    case LookKey(key) =>
    case AddKey(key, k, e) => AddKeyKeepsHits(v, key, k, e);
    case AddItem(k, e) => AddItemKeepsHits(v, k, e);
    case AddFirst(k, e) =>
    case ReplaceKey(key, k, e) => ReplaceKeyKeepsHits(v, key, k, keys);
    case ReplaceAt(which, k, e) => ReplaceAtKeepsHits(v, which, k, keys);
    case DeleteKey(key) => DeleteKeyKeepsHits(v, key, keys);
    case DeleteAt(which) => DeleteAtKeepsHits(v, which, keys);
    case ChangeChild(i, k) => ChangeExact(v, i, k);
    case Open(kind) => OpenKeeps(v, kind);
    case Renew(_, _, _) =>
  }

  /** With the scalar `Add` overloads and `AddEmptySub...` in the run as well,
      under any keys, every cached pointer that is not null stays on the live
      node a fresh lookup would give. */
  lemma {:induction false} RunsKeepHits(v: View, ops: seq<Op>, keys: set<Text>)
    requires HitsLive(v) && AllApart(v.kids) && Within(v, keys) && CaseDistinct(keys)
    requires RunFits(v, ops) && forall op | op in ops :: Kept(op, keys) || ScalarAdd(op)
    ensures HitsLive(Run(v, ops))
    decreases ops
  {
    hide Step, Fits, Kept, ScalarAdd, HitsLive, Within, CaseDistinct, AllApart;
    if ops != [] {
      var op := ops[0];
      assert Kept(op, keys) || ScalarAdd(op);
      StepKeepsHits(v, op, keys);
      StepApart(v, op);
      StepWithin(v, op, keys);
      RunsKeepHits(Step(v, op), ops[1..], keys);
    }
  }

  /** A node a lookup finds is one of the children. */
  lemma {:induction false} LookupIsLive(v: View, i: uint32, key: Text)
    ensures LookupIndex(v, i) != null ==> LookupIndex(v, i) in Roots(v.kids)
    ensures LookupKey(v, key) != null ==> LookupKey(v, key) in Roots(v.kids)
  {
    hide FirstMatch, CStr;
  }

  // ------------------------------------------------ runs that end incoherent

  /** A wrapper that has parsed an array or an object and cached nothing. */
  ghost function Opening(kind: Kind, ks: seq<Tree>): View {
    View(true, kind, ks, map[], map[])
  }

  lemma {:induction false} RunOfTwo(v: View, a: Op, b: Op)
    ensures Run(v, [a, b]) == Step(Step(v, a), b)
  {
    hide Step;
    assert [a, b][1..] == [b] && [b][1..] == [];
    assert Run(Step(v, a), [b]) == Run(Step(Step(v, a), b), []);
  }

  ghost predicate NamedA(k: Tree) { Apart(k) && k.data.key.Block? && k.data.key.text == [97] }

  lemma {:induction false} OneChild(k: Tree)
    requires Apart(k)
    ensures AllApart([k]) && AllObjects([k]) == Objects(k) && [k][0] == k
  {
    SegOne(null, k, null);
  }

  lemma {:induction false} CaseOfA(k: Tree)
    requires NamedA(k)
    ensures CStr([65]) == [65] && CStr([97]) == [97] && CaseEqual([97], [65])
    ensures Found([k], [65]) == k.node && Found([k], [97]) == k.node
  {
    assert NulFree([65]) && NulFree([97]);
    assert Lower([97]) == Lower([65]) == [97];
    FoundOne(k, [65]);
    FoundOne(k, [97]);
  }

  /** Look up `A`, delete `a`: the wrapper handed out for `A` points at the
      freed node. */
  lemma {:induction false} StaleByCase(k: Tree)
    requires NamedA(k)
    ensures !Coherent(Run(Opening(KObject, [k]), [LookKey([65]), DeleteKey([97])]))
  {
    var v := Step(Opening(KObject, [k]), LookKey([65]));
    CaseOfA(k);
    OneChild(k);
    RunOfTwo(Opening(KObject, [k]), LookKey([65]), DeleteKey([97]));
    assert [65] in v.byKey && v.byKey[[65]] == k.node;
    CoherentExactlyWhenSafe(v, DeleteKey([97]));
  }

  /** Look up index 0, delete index -1: the first child is freed, and only what
      is cached at huge indexes is evicted. */
  lemma {:induction false} StaleByNegativeIndex(k: Tree)
    requires Apart(k)
    ensures !Coherent(Run(Opening(KArray, [k]), [LookIndex(0), DeleteAt(-1)]))
  {
    var v := Step(Opening(KArray, [k]), LookIndex(0));
    OneChild(k);
    RunOfTwo(Opening(KArray, [k]), LookIndex(0), DeleteAt(-1));
    assert 0 in v.byIndex;
    CoherentExactlyWhenSafe(v, DeleteAt(-1));
  }

  /** Look up index 2^31, which is converted to a negative one and selects
      child 0; replacing child 0 leaves it pointing at the freed node. */
  lemma {:induction false} StaleByHugeIndex(k: Tree, n: Tree)
    requires Apart(k) && Apart(n) && Objects(k) !! Objects(n)
    ensures !Coherent(Run(Opening(KArray, [k]), [LookIndex(TWO31), ReplaceAt(0, n, true)]))
  {
    var v := Step(Opening(KArray, [k]), LookIndex(TWO31));
    OneChild(k);
    RunOfTwo(Opening(KArray, [k]), LookIndex(TWO31), ReplaceAt(0, n, true));
    assert TWO31 in v.byIndex && Clamp(AsInt32(TWO31)) == 0;
    CoherentExactlyWhenSafe(v, ReplaceAt(0, n, true));
  }

  /** Look up a missing key, add it with a scalar overload: the empty wrapper
      handed out for it stays. */
  lemma {:induction false} StaleByScalarAdd(k: Tree)
    requires NamedA(k)
    ensures !Coherent(Run(Opening(KObject, []), [LookKey([97]), AddKey([97], k, false)]))
  {
    var v := Step(Opening(KObject, []), LookKey([97]));
    CaseOfA(k);
    EmptyFound([97]);
    RunOfTwo(Opening(KObject, []), LookKey([97]), AddKey([97], k, false));
    assert [97] in v.byKey;
    CoherentExactlyWhenSafe(v, AddKey([97], k, false));
  }

  /** Look up index 0, replace it or add in front of it with a scalar overload:
      the wrapper handed out for it points at the freed node, or at the one
      that now is second. */
  lemma {:induction false} StaleByScalarChange(k: Tree, n: Tree)
    requires Apart(k) && Apart(n) && Objects(k) !! Objects(n)
    ensures !Coherent(Run(Opening(KArray, [k]), [LookIndex(0), ReplaceAt(0, n, false)]))
    ensures !Coherent(Run(Opening(KArray, [k]), [LookIndex(0), AddFirst(n, false)]))
  {
    var v := Step(Opening(KArray, [k]), LookIndex(0));
    OneChild(k);
    RunOfTwo(Opening(KArray, [k]), LookIndex(0), ReplaceAt(0, n, false));
    RunOfTwo(Opening(KArray, [k]), LookIndex(0), AddFirst(n, false));
    assert 0 in v.byIndex;
    CoherentExactlyWhenSafe(v, ReplaceAt(0, n, false));
    CoherentExactlyWhenSafe(v, AddFirst(n, false));
  }
}

/** CJsonObject: a wrapper that owns or borrows a cJSON tree, and caches the
    wrappers it handed out for indexes and keys. */
module Wrapper {
  import opened Bytes
  import opened Numbers
  import opened JsonValue
  import opened ParsedResult
  import opened Nodes
  import opened Sharing
  import opened Below
  import opened Cache
  import opened Widths
  import Chain
  import Items
  import NodeParse
  import NodePrint
  import Parser
  import Printer
  import Printout
  import RoundTrip
  import NormalForm

  type int32 = i: int | -TWO31 <= i < TWO31

  datatype Root = NoRoot | Root(tree: Tree)

  // ------------------------------------------------------ trees that stay

  lemma {:induction false} GrownProper(t: Tree, k: Tree)
    requires Proper(t) && Proper(k) && (t.data.kind == KObject ==> k.data.key.Block?)
    ensures Proper(Chain.WithKids(t, t.kids + [k])) && Proper(Chain.WithKids(t, [k] + t.kids))
  {
    ProperConcat(t.kids, [k]);
    ProperConcat([k], t.kids);
    assert [k][1..] == [];
  }

  lemma {:induction false} AllProperAround(a: seq<Tree>, k: Tree, b: seq<Tree>)
    ensures AllProper(a + [k] + b) <==> AllProper(a) && Proper(k) && AllProper(b)
  {
    hide Proper;
    ProperConcat(a + [k], b);
    ProperConcat(a, [k]);
    assert [k][1..] == [];
  }

  lemma {:induction false} ExchangedProper(t: Tree, i: nat, k: Tree)
    requires Proper(t) && Proper(k) && i < |t.kids| && (t.data.kind == KObject ==> k.data.key.Block?)
    ensures Proper(Chain.WithKids(t, Chain.Exchanged(t.kids, i, k)))
  {
    Items.SplitAt(t.kids, i);
    AllProperAround(t.kids[..i], t.kids[i], t.kids[i + 1..]);
    AllProperAround(t.kids[..i], k, t.kids[i + 1..]);
  }

  lemma {:induction false} WithoutProper(t: Tree, i: nat)
    requires Proper(t) && i < |t.kids|
    ensures Proper(Chain.WithKids(t, Chain.Without(t.kids, i)))
  {
    Items.SplitAt(t.kids, i);
    AllProperAround(t.kids[..i], t.kids[i], t.kids[i + 1..]);
    ProperConcat(t.kids[..i], t.kids[i + 1..]);
  }

  /** Naming a tree does not change what it denotes. */
  lemma {:induction false} RenamedValue(k: Tree, a: array<byte>, s: Text)
    requires Proper(k)
    ensures Proper(Items.Renamed(k, a, s)) && ValueOf(Items.Renamed(k, a, s)) == ValueOf(k)
  {
  }

  lemma {:induction false} ChildNamed(t: Tree, i: nat)
    requires Proper(t) && t.data.kind == KObject && i < |t.kids|
    ensures t.kids[i].data.key.Block?
  {
  }

  lemma {:induction false} NotReference(t: Tree)
    requires Proper(t)
    ensures !t.data.isRef
  {
  }

  lemma {:induction false} ProperAt(ks: seq<Tree>, i: nat)
    requires AllProper(ks) && i < |ks|
    ensures Proper(ks[i])
  {
    hide Proper;
    if i > 0 {
      ProperAt(ks[1..], i - 1);
    }
  }

  /** A child of a tree is a tree. */
  lemma {:induction false} ChildTree(t: Tree, i: nat)
    requires Holds(t) && Apart(t) && Proper(t) && i < |t.kids|
    ensures Holds(t.kids[i]) && Apart(t.kids[i]) && Proper(t.kids[i])
    ensures Objects(t.kids[i]) <= Objects(t)
  {
    SegAt(null, t.kids, null, i);
    Chain.ApartAround(t.kids, i);
    ProperAt(t.kids, i);
  }

  lemma {:induction false} LastIsKid(ks: seq<Tree>)
    ensures Chain.LastNode(ks) <= Chain.Roots(ks) && Chain.FirstNode(ks) <= Chain.Roots(ks)
  {
    assert ks != [] ==> ks[|ks| - 1].node in Chain.Roots(ks);
    assert ks != [] ==> ks[0].node in Chain.Roots(ks);
  }

  lemma {:induction false} PrependedObjects(t: Tree, k: Tree)
    requires Apart(t) && Apart(k) && Objects(t) !! Objects(k)
    ensures Apart(Chain.WithKids(t, [k] + t.kids))
    ensures Objects(Chain.WithKids(t, [k] + t.kids)) == Objects(t) + Objects(k)
  {
    Chain.ApartHead(k, t.kids);
  }

  /** The string a `char *` points at. */
  method FromC(a: array<byte>, ghost s: Text) returns (t: Text)
    requires IsCString(a, s)
    ensures t == s
  {
    var n := NodePrint.StrLen(a, s);
    t := a[..n];
  }

  /** A tree owns nodes and strings only. */
  lemma {:induction false} NoWrapper(w: CJsonObject, t: Tree)
    ensures w !in Objects(t)
    decreases t
  {
    NoWrappers(w, t.kids);
  }

  lemma {:induction false} NoWrappers(w: CJsonObject, ks: seq<Tree>)
    ensures w !in AllObjects(ks)
    decreases ks
  {
    if ks != [] {
      NoWrapper(w, ks[0]);
      NoWrappers(w, ks[1..]);
    }
  }

  lemma {:induction false} FocusNotKid(t: Tree)
    requires Apart(t)
    ensures t.node !in Chain.Roots(t.kids)
  {
    forall i | 0 <= i < |t.kids| ensures t.kids[i].node != t.node {
      ChildInside(t.kids, i);
    }
  }

  lemma {:induction false} KidsInside(t: Tree)
    ensures AllObjects(t.kids) <= Objects(t)
  {
  }

  lemma {:induction false} FoundInObject(v: View, key: Text)
    ensures LookupKey(v, key) != null ==> v.open && v.kind == KObject
  {
  }

  /** A lookup and a change below a child keep the cache coherent. */
  lemma {:induction false} InsideCoherent(v: View, key: Text, i: nat, k: Tree)
    requires Coherent(v) && Fits(Step(v, LookKey(key)), ChangeChild(i, k))
    ensures Coherent(Step(Step(v, LookKey(key)), ChangeChild(i, k)))
  {
    hide SameChild, ChangeChildStep;
    ChangeExact(Step(v, LookKey(key)), i, k);
  }

  lemma {:induction false} ReplaceKeyShape(v: View, key: Text, k: Tree)
    requires LookupKey(v, key) != null
    requires NewChild(v, k) && k.data.key.Block? && k.data.key.text == CStr(key)
    ensures Fits(v, ReplaceKey(key, k, true))
    ensures Step(v, ReplaceKey(key, k, true))
         == v.(kids := Chain.Exchanged(v.kids, Items.FirstMatch(v.kids, CStr(key)), k), byKey := v.byKey - {key})
  {
  }

  lemma {:induction false} AddKeyShape(v: View, key: Text, k: Tree, e: bool)
    requires Opened(v, KObject).kind == KObject && (v.open || v.kids == [])
    requires Apart(k) && AllObjects(Opened(v, KObject).kids) !! Objects(k)
    requires k.data.key.Block? && k.data.key.text == CStr(key)
    ensures Fits(v, AddKey(key, k, e))
    ensures var o := Opened(v, KObject);
      Step(v, AddKey(key, k, e)) == o.(kids := o.kids + [k], byKey := if e then o.byKey - {key} else o.byKey)
  {
  }

  lemma {:induction false} AddItemShape(v: View, k: Tree, e: bool)
    requires Opened(v, KArray).kind == KArray && (v.open || v.kids == [])
    requires Apart(k) && AllObjects(Opened(v, KArray).kids) !! Objects(k)
    ensures Fits(v, AddItem(k, e))
    ensures var o := Opened(v, KArray);
      Step(v, AddItem(k, e))
        == o.(kids := o.kids + [k], byIndex := if e then EvictFrom(o.byIndex, |o.kids|) else o.byIndex)
  {
  }

  lemma {:induction false} AddFirstShape(v: View, k: Tree, e: bool)
    requires Opened(v, KArray).kind == KArray && (v.open || v.kids == [])
    requires Apart(k) && AllObjects(Opened(v, KArray).kids) !! Objects(k)
    ensures Fits(v, AddFirst(k, e))
    ensures var o := Opened(v, KArray);
      Step(v, AddFirst(k, e)) == o.(kids := [k] + o.kids, byIndex := if e then map[] else o.byIndex)
  {
  }

  ghost predicate IndexInRange(v: View, which: int) {
    v.open && v.kind == KArray && Chain.Clamp(which) < |v.kids|
  }

  lemma {:induction false} ReplaceAtShape(v: View, which: int, k: Tree)
    requires IndexInRange(v, which) && NewChild(v, k)
    ensures Fits(v, ReplaceAt(which, k, true))
    ensures Step(v, ReplaceAt(which, k, true))
         == v.(kids := Chain.Exchanged(v.kids, Chain.Clamp(which), k), byIndex := v.byIndex - {Unsigned(which)})
  {
  }

  /** The tree after a replacement by name. */
  lemma {:induction false} SwappedTree(t: Tree, k: Tree, t': Tree, k': Tree, key: Text)
    requires Proper(t) && Proper(k)
    requires Items.FirstMatch(t.kids, key) == |t.kids| ==> t' == t && k' == k
    requires Items.FirstMatch(t.kids, key) < |t.kids| ==>
      && k'.data.key.Block? && k' == Items.Renamed(k, k'.data.key.a, key)
      && t' == Chain.WithKids(t, Chain.Exchanged(t.kids, Items.FirstMatch(t.kids, key), k'))
    ensures Proper(t') && ValueOf(k') == ValueOf(k) && t'.data == t.data && t'.node == t.node
    ensures Items.Found(t'.kids, key) != null <==> Items.Found(t.kids, key) != null
  {
    FoundWhen(t.kids, key);
    var i := Items.FirstMatch(t.kids, key);
    if i < |t.kids| {
      RenamedValue(k, k'.data.key.a, key);
      ExchangedProper(t, i, k');
      Items.FoundAfterReplace(t.kids, key, k', key);
    }
  }

  // ------------------------------------- what the destructors have to free

  /** A wrapper, the tree it owns if it owns one, and the wrappers it has
      cached, each with what it owns. */
  datatype Family = Family(w: CJsonObject, own: Root, byIndex: map<uint32, Family>, byKey: map<Text, Family>)

  ghost function OwnTree(own: Root): set<object> {
    if own.NoRoot? then {} else Objects(own.tree)
  }

  /** Every object the destructor of `f.w` has to free, `f.w` itself among them. */
  ghost function All(f: Family): set<object>
    decreases f
  {
    {f.w} + OwnTree(f.own)
    + (set i, o | i in f.byIndex && o in All(f.byIndex[i]) :: o)
    + (set k, o | k in f.byKey && o in All(f.byKey[k]) :: o)
  }

  ghost function AllIn<K>(fs: map<K, Family>): set<object> {
    set k, o | k in fs && o in All(fs[k]) :: o
  }

  ghost function Wrappers(f: Family): set<CJsonObject>
    decreases f
  {
    {f.w}
    + (set i, w | i in f.byIndex && w in Wrappers(f.byIndex[i]) :: w)
    + (set k, w | k in f.byKey && w in Wrappers(f.byKey[k]) :: w)
  }

  ghost function WrappersIn<K>(fs: map<K, Family>): set<CJsonObject> {
    set k, w | k in fs && w in Wrappers(fs[k]) :: w
  }

  /** The heap looks like the family. */
  ghost predicate Keeps(f: Family)
    reads All(f)
    decreases f
  {
    && (f.own.NoRoot? ==> f.w.data == null)
    && (f.own.Root? ==>
          var t := f.own.tree;
          assert t.node in Objects(t);
          t.node == f.w.data && Holds(t) && Apart(t) && t.node.next == null && t.node.prev == null)
    && f.byIndex.Keys == f.w.arrayRef.Keys && f.byKey.Keys == f.w.objectRef.Keys
    && (forall i | i in f.byIndex :: f.byIndex[i].w == f.w.arrayRef[i] && Keeps(f.byIndex[i]))
    && (forall k | k in f.byKey :: f.byKey[k].w == f.w.objectRef[k] && Keeps(f.byKey[k]))
  }

  ghost predicate KeepsAll<K>(fs: map<K, Family>, refs: map<K, CJsonObject>)
    reads AllIn(fs)
  {
    fs.Keys == refs.Keys && forall k | k in fs :: fs[k].w == refs[k] && Keeps(fs[k])
  }

  /** Nothing belongs to a family twice. */
  ghost predicate Separate(f: Family)
    decreases f
  {
    && f.w !in OwnTree(f.own) + AllIn(f.byIndex) + AllIn(f.byKey)
    && OwnTree(f.own) !! AllIn(f.byIndex) && OwnTree(f.own) !! AllIn(f.byKey) && AllIn(f.byIndex) !! AllIn(f.byKey)
    && (forall i | i in f.byIndex :: Separate(f.byIndex[i]))
    && (forall k | k in f.byKey :: Separate(f.byKey[k]))
    && (forall i, j | i in f.byIndex && j in f.byIndex && i != j :: All(f.byIndex[i]) !! All(f.byIndex[j]))
    && (forall k, l | k in f.byKey && l in f.byKey && k != l :: All(f.byKey[k]) !! All(f.byKey[l]))
  }

  ghost predicate SeparateAll<K>(fs: map<K, Family>) {
    && (forall k | k in fs :: Separate(fs[k]))
    && (forall k, l | k in fs && l in fs && k != l :: All(fs[k]) !! All(fs[l]))
  }

  lemma {:induction false} WrappersInside(f: Family)
    ensures Wrappers(f) <= All(f) && f.w in Wrappers(f)
    decreases f
  {
    forall i | i in f.byIndex ensures Wrappers(f.byIndex[i]) <= All(f.byIndex[i]) {
      WrappersInside(f.byIndex[i]);
    }
    forall k | k in f.byKey ensures Wrappers(f.byKey[k]) <= All(f.byKey[k]) {
      WrappersInside(f.byKey[k]);
    }
  }

  lemma {:induction false} KeepsParts(f: Family)
    requires Keeps(f)
    ensures KeepsAll(f.byIndex, f.w.arrayRef) && KeepsAll(f.byKey, f.w.objectRef)
    ensures f.own.NoRoot? <==> f.w.data == null
    ensures f.own.Root? ==>
      var t := f.own.tree;
      t.node == f.w.data && Holds(t) && Apart(t) && t.node.next == null && t.node.prev == null
  {
    hide Holds, Apart;
  }

  lemma {:induction false} SeparateParts(f: Family)
    requires Separate(f)
    ensures SeparateAll(f.byIndex) && SeparateAll(f.byKey)
    ensures f.w !in OwnTree(f.own) + AllIn(f.byIndex) + AllIn(f.byKey)
    ensures OwnTree(f.own) !! AllIn(f.byIndex) && OwnTree(f.own) !! AllIn(f.byKey)
    ensures AllIn(f.byIndex) !! AllIn(f.byKey)
  {
    hide All;
  }

  lemma {:induction false} AllParts(f: Family)
    ensures All(f) == {f.w} + OwnTree(f.own) + AllIn(f.byIndex) + AllIn(f.byKey)
  {
  }

  lemma {:induction false} WrapperParts(f: Family)
    ensures Wrappers(f) == {f.w} + WrappersIn(f.byIndex) + WrappersIn(f.byKey)
    ensures WrappersIn(f.byIndex) <= AllIn(f.byIndex) && WrappersIn(f.byKey) <= AllIn(f.byKey)
  {
    forall i | i in f.byIndex ensures Wrappers(f.byIndex[i]) <= All(f.byIndex[i]) {
      WrappersInside(f.byIndex[i]);
    }
    forall k | k in f.byKey ensures Wrappers(f.byKey[k]) <= All(f.byKey[k]) {
      WrappersInside(f.byKey[k]);
    }
  }

  class CJsonObject {
    var data: Node?
    var borrowed: Node?
    var arrayRef: map<uint32, CJsonObject>
    var objectRef: map<Text, CJsonObject>
    ghost var root: Root

    /** `m_pJsonData` when there is one, else `m_pExternJsonDataRef`. */
    function Focus(): Node?
      reads this
    {
      if data != null then data else borrowed
    }

    ghost function Footprint(): set<object>
      reads this
    {
      if root.NoRoot? then {} else Objects(root.tree)
    }

    ghost predicate Valid()
      reads this, Footprint()
    {
      match root
      case NoRoot => data == null && borrowed == null
      case Root(t) =>
        && t.node == Focus() && Holds(t) && Apart(t) && Proper(t)
        && (data != null ==> t.node.next == null && t.node.prev == null)
    }

    /** No wrapper is part of a tree. */
    lemma {:induction false} NotInside(w: CJsonObject)
      ensures this !in w.Footprint()
    {
      if w.root.Root? {
        NoWrapper(this, w.root.tree);
      }
    }

    predicate NothingCached()
      reads this
    {
      arrayRef == map[] && objectRef == map[]
    }

    /** The pointers cached for indexes and for keys. */
    ghost function Indexed(): map<uint32, Node?>
      reads this`arrayRef, arrayRef.Values`borrowed
    {
      map i | i in arrayRef :: arrayRef[i].borrowed
    }

    ghost function Keyed(): map<Text, Node?>
      reads this`objectRef, objectRef.Values`borrowed
    {
      map k | k in objectRef :: objectRef[k].borrowed
    }

    /** The wrapper as the cache model sees it. */
    ghost function State(): View
      reads this`root, this`arrayRef, this`objectRef
      reads arrayRef.Values`borrowed, objectRef.Values`borrowed
    {
      View(root.Root?, if root.Root? then root.tree.data.kind else KNull, if root.Root? then root.tree.kids else [],
           Indexed(), Keyed())
    }

    ghost function Value(): Json
      requires root.Root?
      reads this
    {
      ValueOf(root.tree)
    }

    /** No double anywhere: what the printer is modelled for. */
    ghost predicate CanPrint()
      reads this
    {
      root.Root? ==> Printable(Value())
    }

    constructor ()
      ensures Valid() && root == NoRoot && data == null && borrowed == null && arrayRef == map[] && objectRef == map[]
    {
      data, borrowed := null, null;
      arrayRef, objectRef := map[], map[];
      root := NoRoot;
    }

    /** A wrapper that borrows a node of another tree. */
    constructor Borrow(node: Node, ghost t: Tree)
      requires t.node == node && Holds(t) && Apart(t) && Proper(t)
      ensures Valid() && root == Root(t) && borrowed == node && data == null
      ensures arrayRef == map[] && objectRef == map[]
    {
      assert allocated(Objects(t));
      data, borrowed := null, node;
      arrayRef, objectRef := map[], map[];
      root := Root(t);
    }

    /** The type of the owned root, or of the borrowed node, is `kind`. */
    method HasKind(kind: Kind) returns (yes: bool)
      requires Valid()
      ensures yes == (root.Root? && root.tree.data.kind == kind)
    {
      if data != null {
        yes := data.kind == kind && !data.isRef;
      } else if borrowed != null {
        yes := borrowed.kind == kind && !borrowed.isRef;
      } else {
        yes := false;
      }
    }

    /** `operator[](const std::string&)`. */
    method AtKey(strKey: Text) returns (r: CJsonObject)
      requires Valid()
      modifies this`objectRef
      ensures Valid() && State() == Step(old(State()), LookKey(strKey))
      ensures strKey in objectRef && r == objectRef[strKey]
      ensures strKey in old(objectRef) ==> r == old(objectRef)[strKey]
      ensures strKey !in old(objectRef) ==>
        fresh(r) && r.Valid() && r.data == null && r.borrowed == LookupKey(State(), strKey) && r.NothingCached()
    {
      hide Holds, Apart, Proper, Objects, Items.Found, CStr;
      assert allocated(Footprint());
      ghost var v := State();
      if strKey in objectRef {
        assert strKey in v.byKey;
        return objectRef[strKey];
      }
      assert strKey !in v.byKey;
      r := WrapKey(strKey);
      NotInside(this);
      NotInside(r);
      objectRef := objectRef[strKey := r];
      assert Keyed() == v.byKey[strKey := LookupKey(v, strKey)];
      assert Indexed() == v.byIndex;
    }

    /** A new wrapper around what the key selects. */
    method WrapKey(strKey: Text) returns (r: CJsonObject)
      requires Valid()
      ensures fresh(r) && r.Valid() && r.NothingCached()
      ensures r.data == null && r.borrowed == LookupKey(State(), strKey)
    {
      hide Holds, Apart, Proper;
      assert allocated(Footprint());
      var node: Node? := null;
      var isObject := HasKind(KObject);
      if isObject {
        NotReference(root.tree);
        HoldsLists(root.tree);
        node := Items.GetObjectItem(Focus(), CStr(strKey), root.tree.kids);
      }
      if node == null {
        r := new CJsonObject();
      } else {
        ChildTree(root.tree, Items.FirstMatch(root.tree.kids, CStr(strKey)));
        r := new CJsonObject.Borrow(node, root.tree.kids[Items.FirstMatch(root.tree.kids, CStr(strKey))]);
      }
    }

    /** `operator[](unsigned int)`. */
    method AtIndex(uiWhich: uint32) returns (r: CJsonObject)
      requires Valid()
      modifies this`arrayRef
      ensures Valid() && State() == Step(old(State()), LookIndex(uiWhich))
      ensures uiWhich in arrayRef && r == arrayRef[uiWhich]
      ensures uiWhich in old(arrayRef) ==> r == old(arrayRef)[uiWhich]
      ensures uiWhich !in old(arrayRef) ==>
        fresh(r) && r.Valid() && r.data == null && r.borrowed == LookupIndex(State(), uiWhich) && r.NothingCached()
    {
      hide Holds, Apart, Proper, Objects, Chain.ItemAt, AsInt32;
      assert allocated(Footprint());
      ghost var v := State();
      if uiWhich in arrayRef {
        assert uiWhich in v.byIndex;
        return arrayRef[uiWhich];
      }
      assert uiWhich !in v.byIndex;
      r := WrapIndex(uiWhich);
      NotInside(this);
      NotInside(r);
      arrayRef := arrayRef[uiWhich := r];
      assert Indexed() == v.byIndex[uiWhich := LookupIndex(v, uiWhich)];
      assert Keyed() == v.byKey;
    }

    method WrapIndex(uiWhich: uint32) returns (r: CJsonObject)
      requires Valid()
      ensures fresh(r) && r.Valid() && r.NothingCached()
      ensures r.data == null && r.borrowed == LookupIndex(State(), uiWhich)
    {
      hide Holds, Apart, Proper;
      assert allocated(Footprint());
      var node: Node? := null;
      var isArray := HasKind(KArray);
      if isArray {
        NotReference(root.tree);
        HoldsLists(root.tree);
        node := Chain.GetArrayItem(Focus(), AsInt32(uiWhich), root.tree.kids);
      }
      if node == null {
        r := new CJsonObject();
      } else {
        ChildTree(root.tree, Chain.Clamp(AsInt32(uiWhich)));
        r := new CJsonObject.Borrow(node, root.tree.kids[Chain.Clamp(AsInt32(uiWhich))]);
      }
    }

    // ----------------------------------------------------------- printing

    ghost function TextOf(fmt: bool): Text
      requires CanPrint()
      reads this
    {
      if root.NoRoot? then [] else Printer.Print(Value(), 0, fmt)
    }

    /** `ToString` and `ToFormattedString`: empty for an empty wrapper. */
    method ToText(fmt: bool) returns (s: Text)
      requires Valid() && CanPrint()
      ensures s == TextOf(fmt)
    {
      hide Holds, Apart, Proper;
      s := [];
      var node := Focus();
      if node != null {
        HoldsShows(root.tree);
        Printout.ProperPrints(root.tree, 0, fmt);
        var out := NodePrint.PrintText(node, fmt, root.tree);
        s := FromC(out, TextOf(fmt));
      }
    }

    /** Print the other wrapper and parse the text: a tree of its own for that
        wrapper's value; null for an empty wrapper. */
    method CopyOf(o: CJsonObject, ghost live: set<object>) returns (c: Node?, ghost k: Tree, ghost live': set<object>)
      requires o.Valid() && o.CanPrint()
      ensures c == null <==> o.root.NoRoot?
      ensures c != null ==>
        && k.node == c && Holds(k) && Apart(k) && Proper(k) && fresh(Objects(k)) && k.data.key == NoBlock
        && c.next == null && c.prev == null
        && ValueOf(k) == RoundTrip.RereadAll(o.Value())
        && live' == live + Objects(k)
      ensures c == null ==> live' == live
    {
      hide Holds, Apart, Proper, ValueOf, Printable;
      var s := o.ToText(false);
      PrintedParses(o);
      c, k, live' := NodeParse.Parse(s, live);
    }

    lemma {:induction false} PrintedParses(o: CJsonObject)
      requires o.CanPrint()
      ensures Parser.Parse(o.TextOf(false))
           == if o.root.NoRoot? then Fail else Ok(RoundTrip.RereadAll(o.Value()), [])
    {
      hide ValueOf;
      if o.root.Root? {
        RoundTrip.ParseOfText(o.Value(), false);
      }
    }

    // ------------------------------------------------ changing the children

    ghost function FocusNode(): set<Node>
      reads this
    {
      if root.Root? then {root.tree.node} else {}
    }

    ghost function KidNodes(): set<Node>
      reads this
    {
      if root.Root? then Chain.Roots(root.tree.kids) else {}
    }

    /** An empty wrapper gets a new empty object or array as its root. */
    method OpenAs(kind: Kind, ghost live: set<object>) returns (ghost live': set<object>)
      requires Valid() && Footprint() <= live && (kind == KObject || kind == KArray)
      modifies this`data, this`root
      ensures Valid() && root.Root? && State() == Opened(old(State()), kind)
      ensures old(root).Root? ==> root == old(root) && data == old(data)
      ensures live' == live + Footprint()
      ensures old(root).NoRoot? ==>
        fresh(Footprint()) && Value() == if kind == KArray then Arr([]) else Obj([])
    {
      hide Holds, Apart, Proper, ValueOf;
      assert allocated(Footprint());
      if Focus() == null {
        ghost var t;
        data, t := Items.CreateContainer(kind);
        root := Root(t);
      }
      live' := live + Footprint();
      NotInside(this);
    }

    /** The tree a call has made and not yet linked: its own, unnamed. */
    ghost predicate Loose(c: Node, k: Tree)
      reads this, Objects(k), c
    {
      && k.node == c && Holds(k) && Apart(k) && Proper(k) && k.data.key == NoBlock
      && c.next == null && c.prev == null && Footprint() !! Objects(k)
    }

    /** The tree below the focus has changed in place. */
    ghost method SetRoot(t: Tree)
      requires root.Root? && t.node == Focus() && Holds(t) && Apart(t) && Proper(t)
      requires data != null ==> t.node.next == null && t.node.prev == null
      requires t.data.kind == root.tree.data.kind
      modifies this`root
      ensures Valid() && root == Root(t) && State() == old(State()).(kids := t.kids)
    {
      hide Holds, Apart, Proper;
      root := Root(t);
      NotInside(this);
    }

    /** `cJSON_AddItemToObject` on the wrapper's own object. */
    method AppendKeyed(strKey: Text, c: Node, ghost k: Tree, ghost live: set<object>)
      returns (ghost k': Tree, ghost live': set<object>)
      requires Valid() && Objects(k) <= live && Loose(c, k) && root.Root? && root.tree.data.kind == KObject
      modifies this`root, FocusNode()`child, KidNodes()`next, c`name, c`prev
      ensures k'.data.key.Block? && fresh(k'.data.key.a) && k' == Items.Renamed(k, k'.data.key.a, CStr(strKey))
      ensures Objects(k') == Objects(k) + {k'.data.key.a} && live' == live + Objects(k')
      ensures Footprint() == old(Footprint()) + Objects(k')
      ensures Apart(k') && Proper(k') && ValueOf(k') == ValueOf(k) && AllObjects(old(root.tree.kids)) !! Objects(k')
      ensures Valid() && root == Root(Chain.WithKids(old(root.tree), old(root.tree.kids) + [k']))
      ensures State() == old(State()).(kids := old(root.tree.kids) + [k'])
    {
      hide Holds, Apart, Proper, ValueOf, Chain.Roots, CStr;
      ghost var t := root.tree;
      assert allocated(Objects(k));
      NotReference(t);
      FocusNotKid(t);
      LastIsKid(t.kids);
      k', live' := Items.AddItemToObject(Focus(), CStr(strKey), c, t, k, live);
      RenamedValue(k, k'.data.key.a, CStr(strKey));
      Items.RenamedApart(k, k'.data.key.a, CStr(strKey));
      GrownProper(t, k');
      SetRoot(Chain.WithKids(t, t.kids + [k']));
    }

    /** What `Add` does before it links: an empty wrapper gets a root, the root
        must be of the right kind, and the other wrapper must not be empty. */
    method TakeFor(kind: Kind, o: CJsonObject, ghost live: set<object>)
      returns (c: Node?, ghost k: Tree, ghost live': set<object>)
      requires Valid() && o.Valid() && o.CanPrint() && Footprint() <= live && (kind == KObject || kind == KArray)
      modifies this`data, this`root
      ensures Valid() && State() == Opened(old(State()), kind) && root.Root?
      ensures old(root).Root? ==> root == old(root) && data == old(data)
      ensures old(root).NoRoot? ==> fresh(Footprint())
      ensures c != null <==> root.tree.data.kind == kind && (old(o.root).Root? || o == this)
      ensures c != null ==> Loose(c, k) && fresh(Objects(k)) && live' == live + Footprint() + Objects(k)
      ensures c == null ==> live' == live + Footprint()
      ensures c != null && old(o.root).Root? ==> ValueOf(k) == RoundTrip.RereadAll(old(o.Value()))
    {
      hide Holds, Apart, Proper, ValueOf, Printable, Objects, RoundTrip.RereadAll;
      assert allocated(o.Footprint());
      NotInside(o);
      ghost var v := o.root;
      live' := OpenAs(kind, live);
      EmptyPrints(kind);
      assert o != this ==> o.root == v;
      assert allocated(Footprint()) && allocated(o.Footprint());
      var isKind := HasKind(kind);
      if !isKind {
        return null, root.tree, live';
      }
      assert allocated(Footprint());
      c, k, live' := CopyOf(o, live');
    }

    lemma {:induction false} EmptyPrints(kind: Kind)
      ensures Printable(Arr([])) && Printable(Obj([]))
    {
    }

    /** Drop the wrapper cached for a key. */
    method EvictKey(strKey: Text)
      requires Valid()
      modifies this`objectRef
      ensures Valid() && State() == old(State()).(byKey := old(Keyed()) - {strKey})
    {
      hide Holds, Apart, Proper;
      ghost var v := State();
      objectRef := objectRef - {strKey};
      NotInside(this);
      assert Keyed() == v.byKey - {strKey};
      assert Indexed() == v.byIndex;
    }

    /** The loop that erases the entries at and past an index. */
    method EraseFrom(from: int)
      modifies this`arrayRef
      ensures arrayRef == map i | i in old(arrayRef) && i < from :: old(arrayRef)[i]
    {
      var all := arrayRef;
      var todo := arrayRef.Keys;
      while todo != {}
        invariant todo <= all.Keys
        invariant arrayRef == map i | i in all && (i in todo || i < from) :: all[i]
        decreases |todo|
      {
        var i :| i in todo;
        todo := todo - {i};
        if i >= from {
          arrayRef := arrayRef - {i};
        }
      }
    }

    method EvictFrom(from: int)
      requires Valid()
      modifies this`arrayRef
      ensures Valid() && State() == old(State()).(byIndex := Cache.EvictFrom(old(Indexed()), from))
    {
      hide Holds, Apart, Proper;
      assert allocated(Footprint());
      ghost var v := State();
      EraseFrom(from);
      NotInside(this);
      assert Indexed() == Cache.EvictFrom(v.byIndex, from);
      assert Keyed() == v.byKey;
    }

    /** Drop the wrapper cached for an index. */
    method EvictIndex(i: uint32)
      requires Valid()
      modifies this`arrayRef
      ensures Valid() && State() == old(State()).(byIndex := old(Indexed()) - {i})
    {
      hide Holds, Apart, Proper;
      ghost var v := State();
      arrayRef := arrayRef - {i};
      NotInside(this);
      assert Indexed() == v.byIndex - {i};
      assert Keyed() == v.byKey;
    }

    /** `Add(const std::string&, const CJsonObject&)`. */
    method AddKeyed(strKey: Text, o: CJsonObject, ghost live: set<object>)
      returns (ok: bool, ghost k: Tree, ghost live': set<object>)
      requires Valid() && o.Valid() && o.CanPrint() && Footprint() <= live
      modifies this`data, this`root, this`objectRef, FocusNode()`child, KidNodes()`next
      ensures Valid()
      ensures ok <==> Opened(old(State()), KObject).kind == KObject && (old(o.root).Root? || o == this)
      ensures !ok ==> State() == Opened(old(State()), KObject)
      ensures ok ==>
        Fits(old(State()), AddKey(strKey, k, true)) && State() == Step(old(State()), AddKey(strKey, k, true))
      ensures ok && old(o.root).Root? ==> ValueOf(k) == RoundTrip.RereadAll(old(o.Value()))
      ensures live' == live + Footprint()
      ensures ok ==> fresh(Objects(k))
      ensures old(root).Root? ==>
        && data == old(data)
        && root == if ok then Root(Chain.WithKids(old(root.tree), old(root.tree.kids) + [k])) else old(root)
    {
      hide Holds, Apart, Proper, ValueOf, Printable, Step, Fits, NewChild, AllObjects;
      var c;
      c, k, live' := TakeFor(KObject, o, live);
      ok := c != null;
      if c != null {
        k, live' := AppendKeyed(strKey, c, k, live');
        AddKeyShape(old(State()), strKey, k, true);
        EvictKey(strKey);
      }
    }

    /** `cJSON_AddItemToArray` on the wrapper's own array. */
    method AppendItem(c: Node, ghost k: Tree)
      requires Valid() && Loose(c, k) && root.Root? && root.tree.data.kind == KArray
      modifies this`root, FocusNode()`child, KidNodes()`next, c`prev
      ensures Valid() && root == Root(Chain.WithKids(old(root.tree), old(root.tree.kids) + [k]))
      ensures Footprint() == old(Footprint()) + Objects(k)
      ensures State() == old(State()).(kids := old(root.tree.kids) + [k])
    {
      hide Holds, Apart, Proper, ValueOf;
      ghost var t := root.tree;
      NotReference(t);
      FocusNotKid(t);
      GrownProper(t, k);
      Chain.GrownObjects(t, k);
      LastIsKid(t.kids);
      Chain.AddItemToArray(Focus(), c, t, k);
      SetRoot(Chain.WithKids(t, t.kids + [k]));
    }

    /** `cJSON_AddItemToArrayHead` on the wrapper's own array. */
    method PrependItem(c: Node, ghost k: Tree)
      requires Valid() && Loose(c, k) && root.Root? && root.tree.data.kind == KArray
      modifies this`root, FocusNode()`child, KidNodes()`prev, c`next, c`prev
      ensures Valid() && root == Root(Chain.WithKids(old(root.tree), [k] + old(root.tree.kids)))
      ensures Footprint() == old(Footprint()) + Objects(k)
      ensures State() == old(State()).(kids := [k] + old(root.tree.kids))
    {
      hide Holds, Apart, Proper, ValueOf;
      ghost var t := root.tree;
      NotReference(t);
      FocusNotKid(t);
      GrownProper(t, k);
      PrependedObjects(t, k);
      Chain.AddItemToArrayHead(Focus(), c, t, k);
      SetRoot(Chain.WithKids(t, [k] + t.kids));
    }

    /** The number of children. */
    method Count() returns (n: nat)
      requires Valid() && root.Root?
      ensures Valid() && State() == old(State()) && n == |root.tree.kids|
    {
      hide Holds, Apart, Proper;
      NotReference(root.tree);
      assert allocated(Footprint());
      HoldsLists(root.tree);
      n := Chain.GetArraySize(Focus(), root.tree.kids);
    }

    /** `Add(const CJsonObject&)`. */
    method AddAppended(o: CJsonObject, ghost live: set<object>)
      returns (ok: bool, ghost k: Tree, ghost live': set<object>)
      requires Valid() && o.Valid() && o.CanPrint() && Footprint() <= live
      modifies this`data, this`root, this`arrayRef, FocusNode()`child, KidNodes()`next
      ensures Valid() && live' == live + Footprint()
      ensures ok <==> Opened(old(State()), KArray).kind == KArray && (old(o.root).Root? || o == this)
      ensures !ok ==> State() == Opened(old(State()), KArray)
      ensures ok ==> Fits(old(State()), AddItem(k, true)) && State() == Step(old(State()), AddItem(k, true))
      ensures ok && old(o.root).Root? ==> ValueOf(k) == RoundTrip.RereadAll(old(o.Value()))
    {
      hide Holds, Apart, Proper, ValueOf, Printable, Cache.EvictFrom, Step, Fits, NewChild, AllObjects;
      var c;
      c, k, live' := TakeFor(KArray, o, live);
      ok := c != null;
      if c != null {
        AddItemShape(old(State()), k, true);
        AppendItem(c, k);
        var size := Count();
        EvictFrom(size - 1);
      }
    }

    /** `AddAsFirst(const CJsonObject&)`. */
    method AddAsFirst(o: CJsonObject, ghost live: set<object>)
      returns (ok: bool, ghost k: Tree, ghost live': set<object>)
      requires Valid() && o.Valid() && o.CanPrint() && Footprint() <= live
      modifies this`data, this`root, this`arrayRef, FocusNode()`child, KidNodes()`prev
      ensures Valid() && live' == live + Footprint()
      ensures ok <==> Opened(old(State()), KArray).kind == KArray && (old(o.root).Root? || o == this)
      ensures !ok ==> State() == Opened(old(State()), KArray)
      ensures ok ==> Fits(old(State()), AddFirst(k, true)) && State() == Step(old(State()), AddFirst(k, true))
      ensures ok && old(o.root).Root? ==> ValueOf(k) == RoundTrip.RereadAll(old(o.Value()))
    {
      hide Holds, Apart, Proper, ValueOf, Printable, Step, Fits, NewChild, AllObjects;
      var c;
      c, k, live' := TakeFor(KArray, o, live);
      ok := c != null;
      if c != null {
        AddFirstShape(old(State()), k, true);
        PrependItem(c, k);
        EvictFrom(0);
        assert Indexed() == map[];
      }
    }

    // ------------------------------------- through a wrapper handed out

    /** A wrapper handed out earlier looks at the tree it borrows as it is now. */
    ghost method Attach(t: Tree)
      requires data == null && borrowed == t.node && Holds(t) && Apart(t) && Proper(t)
      modifies this`root
      ensures Valid() && root == Root(t)
    {
      hide Holds, Apart, Proper;
      root := Root(t);
      NoWrapper(this, t);
    }

    /** The tree below child `i` has changed in place, and nothing else of the
        wrapper's tree has: the wrapper's tree is the old one around the new
        child. */
    ghost method Adopt(i: nat, k: Tree)
      requires root.Root? && root.tree.node == Focus() && Apart(root.tree) && Proper(root.tree)
      requires data != null ==> root.tree.node.next == null && root.tree.node.prev == null
      requires i < |root.tree.kids| && Around(root.tree, i) && Holds(k) && Proper(k)
      requires SameChild(root.tree.kids, i, k) && Own(root.tree) !! Objects(k)
      modifies this`root
      ensures Valid() && root == Root(WithChild(old(root.tree), i, k))
      ensures Fits(old(State()), ChangeChild(i, k)) && State() == Step(old(State()), ChangeChild(i, k))
    {
      hide Holds, Apart, Proper, Around;
      ghost var t := root.tree;
      Reassembled(t, i, k);
      ReassembledApart(t, i, k);
      if t.data.kind == KObject {
        ChildNamed(t, i);
      }
      ExchangedProper(t, i, k);
      SetRoot(WithChild(t, i, k));
    }

    /** `operator[]` on a key that is present: while the cache is coherent, the
        wrapper handed out borrows the child, whenever it was made. */
    method HandOut(strKey: Text) returns (r: CJsonObject)
      requires Valid() && Coherent(State()) && LookupKey(State(), strKey) != null
      requires strKey in objectRef ==> objectRef[strKey].data == null && objectRef[strKey] != this
      modifies this`objectRef, (if strKey in objectRef then {objectRef[strKey]} else {})`root
      ensures Valid() && root == old(root) && data == old(data) && State() == Step(old(State()), LookKey(strKey))
      ensures strKey in objectRef && r == objectRef[strKey] && r != this && r.Valid() && r.data == null
      ensures r.root == Root(old(ChildAt(strKey))) && (strKey in old(objectRef) ==> r == old(objectRef)[strKey])
      ensures strKey !in old(objectRef) ==> fresh(r)
    {
      hide Holds, Apart, Proper, Items.FirstMatch;
      ghost var t, i := root.tree, Items.FirstMatch(root.tree.kids, CStr(strKey));
      assert strKey in objectRef ==> strKey in Keyed();
      assert t.kids[i].node == LookupKey(State(), strKey);
      r := AtKey(strKey);
      ChildTree(t, i);
      NoWrapper(r, t);
      assert Holds(t) && allocated(Objects(t));
      r.Attach(t.kids[i]);
    }

    /** `w[strKey].Add(key, o)`: the wrapper handed out for a child that is
        present adds below it; the outer wrapper keeps its cache coherent. */
    method AddInside(strKey: Text, key: Text, o: CJsonObject, ghost live: set<object>)
      returns (ok: bool, ghost k: Tree, ghost live': set<object>)
      requires Valid() && Coherent(State()) && LookupKey(State(), strKey) != null
      requires strKey in objectRef ==>
        objectRef[strKey].data == null && objectRef[strKey] != this && objectRef[strKey] != o
      requires o.Valid() && o.CanPrint() && Footprint() <= live
      modifies this`root, this`objectRef, objectRef.Values`data, objectRef.Values`root, objectRef.Values`objectRef
      modifies ChildAt(strKey).node`child, Chain.Roots(ChildAt(strKey).kids)`next
      ensures Valid() && Coherent(State()) && live' == live + Footprint()
      ensures ok <==> old(ChildAt(strKey)).data.kind == KObject && old(o.root).Root?
      ensures ok ==> ValueOf(k) == RoundTrip.RereadAll(old(o.Value()))
      ensures
        var c := old(ChildAt(strKey));
        var c' := if ok then Chain.WithKids(c, c.kids + [k]) else c;
        && State() == Step(Step(old(State()), LookKey(strKey)),
                           ChangeChild(Items.FirstMatch(old(root.tree.kids), CStr(strKey)), c'))
        && strKey in objectRef && objectRef[strKey].Valid() && objectRef[strKey].root == Root(c')
    {
      hide Holds, Apart, Proper, ValueOf, Printable, Coherent, Step, Fits, SameChild, Items.FirstMatch, Around;
      ghost var v, i := State(), Items.FirstMatch(root.tree.kids, CStr(strKey));
      assert allocated(o.Footprint());
      NotInside(o);
      var r := HandOut(strKey);
      r.NotInside(o);
      assert o.Valid();
      ok, k, live' := AddBelow(r, i, key, o, live);
      InsideCoherent(v, strKey, i, r.root.tree);
    }

    /** `Add` on a wrapper that borrows child `i`. */
    method AddBelow(r: CJsonObject, ghost i: nat, key: Text, o: CJsonObject, ghost live: set<object>)
      returns (ok: bool, ghost k: Tree, ghost live': set<object>)
      requires Valid() && o.Valid() && o.CanPrint() && Footprint() <= live
      requires root.Root? && i < |root.tree.kids|
      requires r != this && r.Valid() && r.data == null && r.root == Root(root.tree.kids[i])
      modifies this`root, r`data, r`root, r`objectRef
      modifies root.tree.kids[i].node`child, Chain.Roots(root.tree.kids[i].kids)`next
      ensures Valid() && r.Valid() && r.data == null && live' == live + Footprint()
      ensures ok <==> old(root.tree.kids[i]).data.kind == KObject && (old(o.root).Root? || o == r)
      ensures ok && old(o.root).Root? ==> ValueOf(k) == RoundTrip.RereadAll(old(o.Value()))
      ensures
        var c := old(root.tree.kids[i]);
        var c' := if ok then Chain.WithKids(c, c.kids + [k]) else c;
        && r.root == Root(c') && root == Root(WithChild(old(root.tree), i, c'))
        && Fits(old(State()), ChangeChild(i, c')) && State() == Step(old(State()), ChangeChild(i, c'))
    {
      hide Holds, Apart, Proper, ValueOf, Printable, Step, SameChild, Around, Rim, Objects, Chain.Roots;
      ghost var t := root.tree;
      AroundChild(t, i);
      ChildApart(t, i);
      SameBelow(t, i);
      NoWrapper(r, t);
      assert allocated(Objects(t));
      ok, k, live' := r.AddKeyed(key, o, live);
      assert Around(t, i);
      if ok {
        GrownBelow(t, i, k);
      }
      NoWrapper(this, r.root.tree);
      assert r.Valid() && allocated(r.Footprint());
      WithChildObjects(t, i, r.root.tree);
      Adopt(i, r.root.tree);
    }

    // ------------------------------------------------- replace and delete

    /** What `Replace` does before it links: the wrapper must have a root of the
        right kind, and the other one must not be empty. */
    method CopyInto(kind: Kind, o: CJsonObject, ghost live: set<object>)
      returns (c: Node?, ghost k: Tree, ghost live': set<object>)
      requires Valid() && o.Valid() && o.CanPrint()
      ensures Valid() && State() == old(State())
      ensures c != null <==> root.Root? && root.tree.data.kind == kind && o.root.Root?
      ensures live' == if c == null then live else live + Objects(k)
      ensures c != null ==> Loose(c, k) && fresh(Objects(k)) && ValueOf(k) == RoundTrip.RereadAll(o.Value())
    {
      hide Holds, Apart, Proper, ValueOf, Printable;
      assert allocated(Footprint()) && allocated(o.Footprint());
      var isKind := HasKind(kind);
      c, live' := null, live;
      if isKind {
        assert allocated(Footprint());
        c, k, live' := CopyOf(o, live);
      } else {
        var n;
        n, k := NodeParse.NewItem();
      }
    }

    /** What a failing `Replace` leaves behind: the copy it made when both
        wrappers had a root of the right kind, owned by nobody. */
    ghost function Leaked(kind: Kind, o: CJsonObject, k: Tree): set<object>
      reads this`root, o`root
    {
      if root.Root? && root.tree.data.kind == kind && o.root.Root? then Objects(k) else {}
    }

    /** `Replace(const std::string&, const CJsonObject&)`. */
    method ReplaceKeyed(strKey: Text, o: CJsonObject, ghost live: set<object>)
      returns (ok: bool, ghost k: Tree, ghost live': set<object>)
      requires Valid() && o.Valid() && o.CanPrint() && Footprint() <= live
      modifies this`root, this`objectRef, FocusNode()`child, KidNodes()`next, KidNodes()`prev
      ensures Valid()
      ensures ok <==> LookupKey(old(State()), strKey) != null && old(o.root).Root?
      ensures !ok ==> State() == old(State())
      ensures ok ==>
        && Fits(old(State()), ReplaceKey(strKey, k, true))
        && State() == Step(old(State()), ReplaceKey(strKey, k, true))
        && ValueOf(k) == RoundTrip.RereadAll(old(o.Value()))
        && live' == live + Objects(k) - Objects(old(ChildAt(strKey)))
      ensures !ok ==> live' == live + Leaked(KObject, o, k) && fresh(Leaked(KObject, o, k))
    {
      hide Holds, Apart, Proper, ValueOf, Printable, Step, Fits, LookupKey, Items.FirstMatch, NewChild, Objects;
      FoundInObject(State(), strKey);
      var c;
      c, k, live' := CopyInto(KObject, o, live);
      ok := false;
      if c != null {
        Items.NotInside(root.tree, k);
        ok, k, live' := SwapKeyed(strKey, c, k, live');
        if ok {
          ReplaceKeyShape(old(State()), strKey, k);
          EvictKey(strKey);
        }
      }
    }

    /** `cJSON_ReplaceItemInObject` on the wrapper's own object. */
    method SwapKeyed(strKey: Text, c: Node, ghost k: Tree, ghost live: set<object>)
      returns (ok: bool, ghost k': Tree, ghost live': set<object>)
      requires Valid() && Loose(c, k)
      requires Footprint() + Objects(k) <= live && root.Root? && root.tree.data.kind == KObject
      modifies this`root, FocusNode()`child, KidNodes()`next, KidNodes()`prev, c`name, c`next, c`prev
      ensures Valid() && ok == (LookupKey(old(State()), strKey) != null)
      ensures !ok ==> State() == old(State()) && k' == k && live' == live
      ensures ok ==>
        && k'.data.key.Block? && k'.data.key.text == CStr(strKey) && NewChild(old(State()), k')
        && ValueOf(k') == ValueOf(k)
        && Objects(k) <= Objects(k') && live' == live + Objects(k') - Objects(old(ChildAt(strKey)))
        && State() == old(State()).(kids := Chain.Exchanged(old(root.tree.kids),
                                    Items.FirstMatch(old(root.tree.kids), CStr(strKey)), k'))
    {
      hide Holds, Apart, Proper, ValueOf, Items.Found, Items.FirstMatch, Objects;
      ghost var t, t' := root.tree, root.tree;
      NotReference(t);
      FocusNotKid(t);
      Items.NotInside(t, k);
      KidsInside(t);
      assert allocated(Objects(k));
      FoundWhen(t.kids, CStr(strKey));
      t', k', live' := Items.ReplaceItemInObject(Focus(), CStr(strKey), c, t, k, live);
      SwappedTree(t, k, t', k', CStr(strKey));
      SetRoot(t');
      var found := Lookup(strKey);
      ok := found != null;
      if ok {
        Items.RenamedApart(k, k'.data.key.a, CStr(strKey));
      }
    }

    /** `Replace(int, const CJsonObject&)`. */
    method ReplaceIndexed(iWhich: int32, o: CJsonObject, ghost live: set<object>)
      returns (ok: bool, ghost k: Tree, ghost live': set<object>)
      requires Valid() && o.Valid() && o.CanPrint() && Footprint() <= live
      modifies this`root, this`arrayRef, FocusNode()`child, KidNodes()`next, KidNodes()`prev
      ensures Valid()
      ensures ok <==> IndexInRange(old(State()), iWhich) && old(o.root).Root?
      ensures !ok ==> State() == old(State())
      ensures ok ==>
        && Fits(old(State()), ReplaceAt(iWhich, k, true))
        && State() == Step(old(State()), ReplaceAt(iWhich, k, true))
        && ValueOf(k) == RoundTrip.RereadAll(old(o.Value()))
        && live' == live + Objects(k) - Objects(old(root.tree.kids)[Chain.Clamp(iWhich)])
      ensures !ok ==> live' == live + Leaked(KArray, o, k) && fresh(Leaked(KArray, o, k))
    {
      hide Holds, Apart, Proper, ValueOf, Printable, Step, Fits;
      var c;
      c, k, live' := CopyInto(KArray, o, live);
      ok := false;
      if c != null {
        ok, live' := SwapIndexed(iWhich, c, k, live');
        if ok {
          ReplaceAtShape(old(State()), iWhich, k);
          EvictIndex(Unsigned(iWhich));
        }
      }
    }

    /** `cJSON_ReplaceItemInArray` on the wrapper's own array. */
    method SwapIndexed(iWhich: int32, c: Node, ghost k: Tree, ghost live: set<object>)
      returns (ok: bool, ghost live': set<object>)
      requires Valid() && Loose(c, k) && Footprint() + Objects(k) <= live && root.Root? && root.tree.data.kind == KArray
      modifies this`root, FocusNode()`child, KidNodes()`next, KidNodes()`prev, c`next, c`prev
      ensures Valid() && ok == IndexInRange(old(State()), iWhich)
      ensures !ok ==> State() == old(State()) && live' == live
      ensures ok ==>
        && State() == old(State()).(kids := Chain.Exchanged(old(root.tree.kids), Chain.Clamp(iWhich), k))
        && live' == live - Objects(old(root.tree.kids)[Chain.Clamp(iWhich)])
    {
      hide Holds, Apart, Proper, ValueOf, Objects;
      ghost var t, t' := root.tree, root.tree;
      NotReference(t);
      FocusNotKid(t);
      Items.NotInside(t, k);
      if Chain.Clamp(iWhich) < |t.kids| {
        ExchangedProper(t, Chain.Clamp(iWhich), k);
      }
      t', live' := Items.ReplaceItemInArray(Focus(), iWhich, c, t, k, live);
      SetRoot(t');
      var found := LookupAt(iWhich);
      ok := found != null;
    }

    /** `Delete(const std::string&)`: true even when there is no such child. */
    method DeleteKeyed(strKey: Text, ghost live: set<object>) returns (ok: bool, ghost live': set<object>)
      requires Valid() && Footprint() <= live
      modifies this`root, this`objectRef, FocusNode()`child, KidNodes()`next, KidNodes()`prev
      ensures Valid() && State() == Step(old(State()), DeleteKey(strKey))
      ensures live' == if LookupKey(old(State()), strKey) == null then live else live - Objects(old(ChildAt(strKey)))
      ensures Footprint() <= live'
      ensures ok <==> old(root).Root? && old(root).tree.data.kind == KObject
    {
      hide Holds, Apart, Proper, Objects, CStr, Items.FirstMatch, Items.Found, Chain.Roots;
      assert allocated(Footprint());
      ok := HasKind(KObject);
      live' := live;
      if ok {
        live' := CutKeyed(strKey, live);
        EvictKey(strKey);
      }
    }

    /** `cJSON_DeleteItemFromObject` on the wrapper's own object. */
    method CutKeyed(strKey: Text, ghost live: set<object>) returns (ghost live': set<object>)
      requires Valid() && Footprint() <= live && root.Root? && root.tree.data.kind == KObject
      modifies this`root, FocusNode()`child, KidNodes()`next, KidNodes()`prev
      ensures Valid() && Footprint() <= live'
      ensures live' == if LookupKey(old(State()), strKey) == null then live else live - Objects(old(ChildAt(strKey)))
      ensures var ks, i := old(root.tree.kids), Items.FirstMatch(old(root.tree.kids), CStr(strKey));
        State() == old(State()).(kids := if i < |ks| then Chain.Without(ks, i) else ks)
    {
      hide Holds, Apart, Proper, Items.FirstMatch;
      ghost var t, t' := root.tree, root.tree;
      NotReference(t);
      FocusNotKid(t);
      if Items.FirstMatch(t.kids, CStr(strKey)) < |t.kids| {
        WithoutProper(t, Items.FirstMatch(t.kids, CStr(strKey)));
      }
      t', live' := Items.DeleteItemFromObject(Focus(), CStr(strKey), t, live);
      SetRoot(t');
    }

    /** `Delete(int)`. */
    method DeleteIndexed(iWhich: int32, ghost live: set<object>) returns (ok: bool, ghost live': set<object>)
      requires Valid() && Footprint() <= live
      modifies this`root, this`arrayRef, FocusNode()`child, KidNodes()`next, KidNodes()`prev
      ensures Valid() && State() == Step(old(State()), DeleteAt(iWhich))
      ensures live' == if !IndexInRange(old(State()), iWhich) then live
                       else live - Objects(old(root.tree.kids)[Chain.Clamp(iWhich)])
      ensures Footprint() <= live'
      ensures ok <==> old(root).Root? && old(root).tree.data.kind == KArray
    {
      hide Holds, Apart, Proper;
      assert allocated(Footprint());
      ok := HasKind(KArray);
      live' := live;
      if ok {
        live' := CutIndexed(iWhich, live);
        EvictFrom(Unsigned(iWhich));
      }
    }

    /** `cJSON_DeleteItemFromArray` on the wrapper's own array. */
    method CutIndexed(iWhich: int32, ghost live: set<object>) returns (ghost live': set<object>)
      requires Valid() && Footprint() <= live && root.Root? && root.tree.data.kind == KArray
      modifies this`root, FocusNode()`child, KidNodes()`next, KidNodes()`prev
      ensures Valid() && Footprint() <= live'
      ensures live' == if !IndexInRange(old(State()), iWhich) then live
                       else live - Objects(old(root.tree.kids)[Chain.Clamp(iWhich)])
      ensures var ks, i := old(root.tree.kids), Chain.Clamp(iWhich);
        State() == old(State()).(kids := if i < |ks| then Chain.Without(ks, i) else ks)
    {
      hide Holds, Apart, Proper;
      ghost var t, t' := root.tree, root.tree;
      NotReference(t);
      FocusNotKid(t);
      if Chain.Clamp(iWhich) < |t.kids| {
        WithoutProper(t, Chain.Clamp(iWhich));
      }
      t', live' := Items.DeleteItemFromArray(Focus(), iWhich, t, live);
      SetRoot(t');
    }

    // ------------------------------------------------------ whole contents

    /** `Clear` and `Parse` leave both maps empty, which is the `Renew` step of
        the cache from whatever state it was in. */
    lemma {:induction false} Renewed(v: View)
      requires Valid() && arrayRef == map[] && objectRef == map[]
      ensures var op := Renew(State().open, State().kind, State().kids);
        Fits(v, op) && State() == Step(v, op)
    {
      assert Indexed() == map[] && Keyed() == map[];
      hide Holds, Objects;
    }

    /** The loop over one of the maps that deletes the cached wrappers: each
        runs its destructor and is freed. */
    static method DestroyAll<K(==)>(refs: map<K, CJsonObject>, ghost f: Family, ghost fs: map<K, Family>,
                                    ghost live: set<object>)
      returns (ghost live': set<object>)
      requires (forall k | k in fs :: fs[k] < f) && KeepsAll(fs, refs) && SeparateAll(fs) && AllIn(fs) <= live
      modifies WrappersIn(fs)
      ensures live' == live - AllIn(fs)
      decreases f, 0
    {
      hide Keeps, All, Separate, Wrappers;
      live' := live;
      var todo := refs.Keys;
      while todo != {}
        invariant todo <= refs.Keys
        invariant forall k | k in todo :: Keeps(fs[k])
        invariant forall k | k in todo :: All(fs[k]) <= live'
        invariant live' == live - (set k, o | k in fs && k !in todo && o in All(fs[k]) :: o)
        decreases |todo|
      {
        var k :| k in todo;
        var w := refs[k];
        WrappersInside(fs[k]);
        live' := w.Clear(fs[k], live');
        live' := live' - {w};
        todo := todo - {k};
      }
    }

    /** `Clear`, which is also the destructor: an owned tree is deleted, a
        borrowed one left alone, every cached wrapper is destroyed, and both
        maps are emptied. */
    method Clear(ghost f: Family, ghost live: set<object>) returns (ghost live': set<object>)
      requires f.w == this && Keeps(f) && Separate(f) && All(f) <= live
      modifies Wrappers(f)
      ensures Valid() && root == NoRoot && data == null && borrowed == null && arrayRef == map[] && objectRef == map[]
      ensures live' == live - (All(f) - {this})
      decreases f, 1
    {
      hide Holds, Apart, Wrappers, WrappersIn, All, AllIn, Keeps, KeepsAll, Separate, SeparateAll, Objects;
      KeepsParts(f);
      SeparateParts(f);
      AllParts(f);
      WrapperParts(f);
      assert allocated(AllIn(f.byIndex)) && allocated(AllIn(f.byKey));
      borrowed := null;
      live' := live;
      if data != null {
        live' := Items.DeleteItem(data, f.own.tree, live');
        data := null;
      }
      live' := DestroyAll(arrayRef, f, f.byIndex, live');
      arrayRef := map[];
      live' := DestroyAll(objectRef, f, f.byKey, live');
      objectRef := map[];
      root := NoRoot;
    }

    /** `Parse`: the wrapper owns the tree of the text, or is empty when the
        text does not start with a value. */
    method Parse(strJson: Text, ghost f: Family, ghost live: set<object>) returns (ok: bool, ghost live': set<object>)
      requires f.w == this && Keeps(f) && Separate(f) && All(f) <= live
      requires !Parser.Parse(CStr(strJson)).Malformed?
      modifies Wrappers(f)
      ensures Valid() && borrowed == null && arrayRef == map[] && objectRef == map[]
      ensures ok == root.Root? == Parser.Parse(CStr(strJson)).Ok?
      ensures ok ==> data != null && fresh(Footprint()) && Value() == Parser.Parse(CStr(strJson)).value
      ensures live' == live - (All(f) - {this}) + Footprint()
    {
      hide Holds, Apart, Proper, ValueOf, Keeps, Separate, All, Wrappers;
      WrappersInside(f);
      live' := Clear(f, live);
      ghost var t;
      data, t, live' := NodeParse.Parse(CStr(strJson), live');
      ok := data != null;
      if data != null {
        root := Root(t);
        NoWrapper(this, t);
      }
    }

    /** The copy constructor: a tree of its own for the value of the other
        wrapper. */
    constructor Copy(o: CJsonObject)
      requires o.Valid() && o.CanPrint()
      ensures Valid() && root.Root? == o.root.Root? && fresh(Footprint())
      ensures root.Root? ==> data != null && Value() == RoundTrip.RereadAll(o.Value())
      ensures arrayRef == map[] && objectRef == map[]
    {
      data, borrowed := null, null;
      arrayRef, objectRef := map[], map[];
      root := NoRoot;
      new;
      hide Holds, Apart, Proper, ValueOf, Printable;
      assert allocated(o.Footprint());
      NotInside(o);
      ghost var t, live;
      data, t, live := CopyOf(o, {});
      if data != null {
        root := Root(t);
        NoWrapper(this, t);
      }
    }

    /** `operator==`: the two texts are the same exactly when the two values
        are. */
    method Equals(o: CJsonObject) returns (same: bool)
      requires Valid() && CanPrint() && o.Valid() && o.CanPrint()
      ensures same <==> root.Root? == o.root.Root? && (root.Root? && o.root.Root? ==> Value() == o.Value())
    {
      hide Holds, Apart, Proper, ValueOf, Printable;
      assert allocated(o.Footprint());
      var a := ToText(false);
      var b := o.ToText(false);
      same := a == b;
      SameTextSameValue(o);
    }

    lemma {:induction false} SameTextSameValue(o: CJsonObject)
      requires CanPrint() && o.CanPrint()
      ensures TextOf(false) == o.TextOf(false)
        <==> root.Root? == o.root.Root? && (root.Root? && o.root.Root? ==> Value() == o.Value())
    {
      hide ValueOf, Printer.Print;
      if root.Root? {
        RoundTrip.ParseOfText(Value(), false);
      }
      if o.root.Root? {
        RoundTrip.ParseOfText(o.Value(), false);
      }
      if root.Root? && o.root.Root? {
        NormalForm.PrintInjective(Value(), o.Value(), 0, false);
      }
    }

    // ------------------------------------------------------- values by key

    /** The child a key selects. */
    ghost function ChildAt(strKey: Text): Tree
      requires LookupKey(State(), strKey) != null
      reads this`root, this`arrayRef, this`objectRef
      reads arrayRef.Values`borrowed, objectRef.Values`borrowed
    {
      root.tree.kids[Items.FirstMatch(root.tree.kids, CStr(strKey))]
    }

    /** The lookup every `Get` by key starts with. */
    method Lookup(strKey: Text) returns (c: Node?)
      requires Valid()
      ensures Valid() && State() == old(State()) && c == LookupKey(State(), strKey)
      ensures c != null ==>
        var k := ChildAt(strKey);
        k.node == c && Holds(k) && Apart(k) && Proper(k) && Objects(k) <= Footprint()
    {
      hide Holds, Apart, Proper, Objects, Items.FirstMatch;
      assert allocated(Footprint());
      c := null;
      var isObject := HasKind(KObject);
      if isObject {
        NotReference(root.tree);
        FoundWhen(root.tree.kids, CStr(strKey));
        assert allocated(Footprint());
        HoldsLists(root.tree);
        c := Items.GetObjectItem(Focus(), CStr(strKey), root.tree.kids);
        if c != null {
          ChildTree(root.tree, Items.FirstMatch(root.tree.kids, CStr(strKey)));
        }
      }
    }

    /** `Get(const std::string&, CJsonObject&)`: prints the child formatted and
        parses the text into the other wrapper. */
    method GetObject(strKey: Text, o: CJsonObject, ghost f: Family, ghost live: set<object>)
      returns (ok: bool, ghost live': set<object>)
      requires Valid() && f.w == o && Keeps(f) && Separate(f) && All(f) <= live
      requires LookupKey(State(), strKey) != null ==> Printable(ValueOf(ChildAt(strKey)))
      modifies Wrappers(f)
      ensures ok == (LookupKey(old(State()), strKey) != null)
      ensures !ok ==> unchanged(o) && live' == live
      ensures ok ==>
        var v := ValueOf(old(ChildAt(strKey)));
        && o.Valid() && o.root.Root? && fresh(o.Footprint()) && o.Value() == RoundTrip.RereadAll(v)
        && live' == live - (All(f) - {o}) + o.Footprint()
        && (AllExact(v) ==> o.Value() == v && o.CanPrint() && o.TextOf(false) == Printer.Print(v, 0, false))
    {
      hide Holds, Apart, Proper, ValueOf, Printable, Keeps, Separate, All, Wrappers;
      WrappersInside(f);
      assert allocated(Footprint()) && allocated(All(f));
      var c := Lookup(strKey);
      ok, live' := c != null, live;
      if c != null {
        ghost var v := ValueOf(ChildAt(strKey));
        assert allocated(All(f));
        var text := PrintChild(c, ChildAt(strKey));
        FormattedParses(v);
        ok, live' := o.Parse(text, f, live);
      }
    }

    /** `cJSON_Print` of a child, as a string. */
    method PrintChild(c: Node, ghost k: Tree) returns (text: Text)
      requires Holds(k) && k.node == c && Proper(k) && Printable(ValueOf(k))
      ensures text == Printer.Print(ValueOf(k), 0, true) && NulFree(text)
    {
      hide Holds, Proper, ValueOf, Printable, Printer.Print;
      HoldsShows(k);
      Printout.ProperPrints(k, 0, true);
      var out := NodePrint.PrintText(c, true, k);
      text := FromC(out, Printer.Print(ValueOf(k), 0, true));
    }

    /** The lookup every `Get` by index starts with, on arrays only. */
    method LookupAt(iWhich: int32) returns (c: Node?)
      requires Valid()
      ensures Valid() && State() == old(State()) && (c != null <==> IndexInRange(State(), iWhich))
      ensures c != null ==>
        var k := root.tree.kids[Chain.Clamp(iWhich)];
        k.node == c && Holds(k) && Apart(k) && Proper(k) && Objects(k) <= Footprint()
    {
      hide Holds, Apart, Proper, Objects;
      assert allocated(Footprint());
      c := null;
      var isArray := HasKind(KArray);
      if isArray {
        NotReference(root.tree);
        assert allocated(Footprint());
        HoldsLists(root.tree);
        c := Chain.GetArrayItem(Focus(), iWhich, root.tree.kids);
        if c != null {
          ChildTree(root.tree, Chain.Clamp(iWhich));
        }
      }
    }

    /** `Get(int, CJsonObject&)`. */
    method GetItem(iWhich: int32, o: CJsonObject, ghost f: Family, ghost live: set<object>)
      returns (ok: bool, ghost live': set<object>)
      requires Valid() && f.w == o && Keeps(f) && Separate(f) && All(f) <= live
      requires IndexInRange(State(), iWhich) ==> Printable(ValueOf(root.tree.kids[Chain.Clamp(iWhich)]))
      modifies Wrappers(f)
      ensures ok == IndexInRange(old(State()), iWhich)
      ensures !ok ==> unchanged(o) && live' == live
      ensures ok ==>
        var v := ValueOf(old(root.tree.kids)[Chain.Clamp(iWhich)]);
        && o.Valid() && o.root.Root? && fresh(o.Footprint()) && o.Value() == RoundTrip.RereadAll(v)
        && live' == live - (All(f) - {o}) + o.Footprint()
        && (AllExact(v) ==> o.Value() == v && o.CanPrint() && o.TextOf(false) == Printer.Print(v, 0, false))
    {
      hide Holds, Apart, Proper, ValueOf, Printable, Keeps, Separate, All, Wrappers;
      WrappersInside(f);
      assert allocated(Footprint()) && allocated(All(f));
      var c := LookupAt(iWhich);
      ok, live' := c != null, live;
      if c != null {
        ghost var v := ValueOf(root.tree.kids[Chain.Clamp(iWhich)]);
        assert allocated(All(f));
        var text := PrintChild(c, root.tree.kids[Chain.Clamp(iWhich)]);
        FormattedParses(v);
        ok, live' := o.Parse(text, f, live);
      }
    }

    // ------------------------------------------------------------ integers

    /** What the scalar overloads of `Add` do before they link. */
    method ReadyFor(kind: Kind, ghost live: set<object>) returns (ok: bool, ghost live': set<object>)
      requires Valid() && Footprint() <= live && (kind == KObject || kind == KArray)
      modifies this`data, this`root
      ensures Valid() && root.Root? && State() == Opened(old(State()), kind) && ok == (root.tree.data.kind == kind)
      ensures live' == live + Footprint()
      ensures old(root).Root? ==> root == old(root)
      ensures old(root).NoRoot? ==> fresh(Footprint())
    {
      hide Holds, Apart, Proper, ValueOf;
      live' := OpenAs(kind, live);
      assert allocated(Footprint());
      ok := HasKind(kind);
    }

    /** A new integer node for a number of a width. */
    method NewInt(w: Width, v: int) returns (c: Node, ghost k: Tree)
      requires Valid() && w.Holds(v)
      ensures Valid() && State() == old(State()) && Loose(c, k) && fresh(Objects(k))
      ensures k.data.kind == KInt && k.data.num == Store(w, v) && ValueOf(k) == Int(v)
    {
      hide Holds, Apart, Proper;
      assert allocated(Footprint());
      LoadOfStore(w, v);
      c, k := Items.CreateInt(Cast64(v), if w.Signed() then -1 else 1);
    }

    method NewContainer(kind: Kind) returns (c: Node, ghost k: Tree)
      requires Valid() && (kind == KObject || kind == KArray)
      ensures Valid() && State() == old(State()) && Loose(c, k) && fresh(Objects(k))
      ensures ValueOf(k) == if kind == KArray then Arr([]) else Obj([])
    {
      hide Holds, Apart, Proper;
      assert allocated(Footprint());
      c, k := Items.CreateContainer(kind);
    }

    /** The four integer overloads of `Add` by key; `w` tells them apart. */
    method AddInt(strKey: Text, w: Width, v: int, ghost live: set<object>)
      returns (ok: bool, ghost k: Tree, ghost live': set<object>)
      requires Valid() && Footprint() <= live && w.Holds(v)
      modifies this`data, this`root, FocusNode()`child, KidNodes()`next
      ensures Valid() && ok == (Opened(old(State()), KObject).kind == KObject)
      ensures live' == live + Footprint()
      ensures !ok ==> State() == Opened(old(State()), KObject)
      ensures ok ==>
        && Fits(old(State()), AddKey(strKey, k, false))
        && State() == Step(old(State()), AddKey(strKey, k, false))
        && k.data.kind == KInt && k.data.num == Store(w, v) && ValueOf(k) == Int(v)
    {
      hide Step, Fits, NewChild, AllObjects, Holds, Apart, Proper, ValueOf, Store, CStr;
      ok, live' := ReadyFor(KObject, live);
      k := root.tree;
      if ok {
        var c;
        c, k := NewInt(w, v);
        k, live' := AppendKeyed(strKey, c, k, live' + Objects(k));
        AddKeyShape(old(State()), strKey, k, false);
      }
    }

    /** `AddEmptySubObject` and `AddEmptySubArray`. */
    method AddEmptySub(strKey: Text, kind: Kind, ghost live: set<object>)
      returns (ok: bool, ghost k: Tree, ghost live': set<object>)
      requires Valid() && Footprint() <= live && (kind == KObject || kind == KArray)
      modifies this`data, this`root, FocusNode()`child, KidNodes()`next
      ensures Valid() && ok == (Opened(old(State()), KObject).kind == KObject)
      ensures live' == live + Footprint()
      ensures !ok ==> State() == Opened(old(State()), KObject)
      ensures ok ==>
        && Fits(old(State()), AddKey(strKey, k, false))
        && State() == Step(old(State()), AddKey(strKey, k, false))
        && ValueOf(k) == if kind == KArray then Arr([]) else Obj([])
    {
      hide Holds, Apart, Proper, ValueOf, Step, Fits, NewChild, AllObjects;
      ok, live' := ReadyFor(KObject, live);
      k := root.tree;
      if ok {
        var c;
        c, k := NewContainer(kind);
        k, live' := AppendKeyed(strKey, c, k, live' + Objects(k));
        AddKeyShape(old(State()), strKey, k, false);
      }
    }

    /** The four integer overloads of `Add` on an array. */
    method AppendInt(w: Width, v: int, ghost live: set<object>)
      returns (ok: bool, ghost k: Tree, ghost live': set<object>)
      requires Valid() && Footprint() <= live && w.Holds(v)
      modifies this`data, this`root, FocusNode()`child, KidNodes()`next
      ensures Valid() && ok == (Opened(old(State()), KArray).kind == KArray)
      ensures live' == live + Footprint()
      ensures !ok ==> State() == Opened(old(State()), KArray)
      ensures ok ==>
        && Fits(old(State()), AddItem(k, false)) && State() == Step(old(State()), AddItem(k, false))
        && k.data.kind == KInt && k.data.num == Store(w, v) && ValueOf(k) == Int(v)
    {
      hide Holds, Apart, Proper, ValueOf, Store;
      ok, live' := ReadyFor(KArray, live);
      k := root.tree;
      if ok {
        var c;
        c, k := NewInt(w, v);
        live' := live' + Objects(k);
        AppendItem(c, k);
      }
    }

    /** The four integer overloads of `Get` by key. */
    method GetInt(strKey: Text, w: Width) returns (ok: bool, v: int)
      requires Valid()
      ensures ok <==> LookupKey(State(), strKey) != null && ChildAt(strKey).data.kind == KInt
      ensures ok ==> v == Load(w, ChildAt(strKey).data.num)
    {
      hide Apart, Load, Items.FirstMatch;
      var c := Lookup(strKey);
      ok, v := false, 0;
      if c != null && c.kind == KInt {
        ok, v := true, Load(w, c.num);
      }
    }

    /** `operator()(const std::string&)`: the string of a string, the decimal
        text of an integer, the two boolean words, and nothing for the rest. */
    method TextAt(strKey: Text) returns (s: Text)
      requires Valid()
      ensures LookupKey(State(), strKey) == null ==> s == []
      ensures LookupKey(State(), strKey) != null ==>
        s == match ValueOf(ChildAt(strKey))
             case Str(t) => t
             case Int(n) => IntText(n)
             case Bool(b) => (if b then Parser.TRUE_TEXT else Parser.FALSE_TEXT)
             case _ => []
    {
      hide Apart, Items.FirstMatch, CalledText, IntText;
      var c := Lookup(strKey);
      s := [];
      if c != null {
        SameText(c.num);
        if c.kind == KString {
          s := FromC(c.valuestring, ChildAt(strKey).data.str.text);
        } else if c.kind == KInt {
          s := CalledText(c.num);
        } else if c.kind == KFalse {
          s := Parser.FALSE_TEXT;
        } else if c.kind == KTrue {
          s := Parser.TRUE_TEXT;
        }
      }
    }
  }

  /** The formatted text parses to what was printed. */
  lemma {:induction false} FormattedParses(v: Json)
    requires Printable(v)
    ensures Parser.Parse(Printer.Print(v, 0, true)) == Ok(RoundTrip.RereadAll(v), [])
    ensures AllExact(v) ==> RoundTrip.RereadAll(v) == v
  {
    RoundTrip.ParseOfText(v, true);
    if AllExact(v) {
      RoundTrip.ExactIsWithinReach(v);
      RoundTrip.RereadAllIsExact(v);
    }
  }

  /** A number added under an absent key is what the same-width `Get` reads. */
  lemma {:induction false} AddedIntIsRead(v: View, key: Text, k: Tree, w: Width, n: int)
    requires w.Holds(n) && Fits(v, AddKey(key, k, false)) && k.data.num == Store(w, n)
    requires Opened(v, KObject).kind == KObject && LookupKey(v, key) == null
    ensures var after := Step(v, AddKey(key, k, false));
      && LookupKey(after, key) == k.node
      && after.kids[Items.FirstMatch(after.kids, CStr(key))] == k
      && Load(w, k.data.num) == n
  {
    var ks := Opened(v, KObject).kids;
    FoundWhen(ks, CStr(key));
    FoundWhen(ks + [k], CStr(key));
    Items.MatchConcat(ks, [k], CStr(key));
    Items.FoundOne(k, CStr(key));
    FoundWhen([k], CStr(key));
    LoadOfStore(w, n);
  }
}

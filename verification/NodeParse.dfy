/** The parse functions of cJSON.c as they run: cursors, loops and nodes. */
module NodeParse {
  import opened Bytes
  import opened Numbers
  import opened ParsedResult
  import opened Strings
  import opened JsonValue
  import opened Nodes
  import Parser
  import Steps = ParseSteps
  import Chain
  import NumberCode
  import StringCode

  /** What a parse function returns: null, or a pointer into the input. */
  datatype Cursor = NullPointer | Pointer(text: Text)

  /** A node a parse function may fill: no children, no string value. */
  ghost predicate Blank(t: Tree) {
    t.kids == [] && t.data.str.NoBlock? && !t.data.isRef
  }

  /** `t'` is what parsing made of the blank node `t`; `live` and `live'` are
      the allocated objects before and after. Nothing allocated on the way is
      out of reach of the node. */
  ghost predicate Grew(t: Tree, t': Tree, live: set<object>, live': set<object>) {
    && t'.node == t.node && t'.data.key == t.data.key && !t'.data.isRef
    && Apart(t') && Objects(t) <= Objects(t')
    && live' == live + Objects(t')
  }

  /** A blank node with its value fields set. */
  ghost function Filled(t: Tree, kind: Kind, num: IntFields, dec: Decimals, str: Block): Tree {
    t.(data := t.data.(kind := kind, num := num, dec := dec, str := str))
  }

  lemma {:induction false} FilledGrew(t: Tree, kind: Kind, num: IntFields, dec: Decimals, live: set<object>)
    requires Blank(t) && Apart(t) && Objects(t) <= live
    ensures Grew(t, Filled(t, kind, num, dec, NoBlock), live, live)
    ensures Objects(Filled(t, kind, num, dec, NoBlock)) == Objects(t)
  {
  }

  lemma {:induction false} NumberStored(c: Scan, neg: bool, n: nat, e: int, isInt: bool)
    requires c.Valid() && neg == c.neg && n == c.Mantissa() && e == c.Exponent() && isInt == c.IsInt()
    ensures Parser.NumberValue(c)
         == if isInt then Int(Numeric(SignedFields(neg, n))) else Dbl(if neg then -(n as int) else n, e)
  {
  }

  method ReadValue(num: Text) returns (neg: bool, n: nat, e: int, isInt: bool, rest: Text)
    ensures rest == ScanNumber(num).rest
    ensures Parser.NumberValue(ScanNumber(num))
         == if isInt then Int(Numeric(SignedFields(neg, n))) else Dbl(if neg then -(n as int) else n, e)
  {
    neg, n, e, isInt, rest := NumberCode.ReadNumber(num);
    NumberStored(ScanNumber(num), neg, n, e, isInt);
  }

  /** `parse_number`. The integer field of a double is left zero. */
  method ParseNumber(item: Node, num: Text, ghost t: Tree) returns (rest: Text, ghost t': Tree)
    requires Holds(t) && Blank(t) && t.node == item
    modifies item`kind, item`num, item`dec
    ensures rest == ScanNumber(num).rest
    ensures ValueOf(t') == Parser.NumberValue(ScanNumber(num)) && Proper(t')
    ensures Holds(t') && t' == Filled(t, t'.data.kind, t'.data.num, t'.data.dec, NoBlock)
  {
    assert allocated(Objects(t));
    var neg, n, e, isInt;
    neg, n, e, isInt, rest := ReadValue(num);
    t' := StoreNumber(item, neg, n, e, isInt, t);
  }

  method StoreNumber(item: Node, neg: bool, n: nat, e: int, isInt: bool, ghost t: Tree) returns (ghost t': Tree)
    requires Holds(t) && Blank(t) && t.node == item
    modifies item`kind, item`num, item`dec
    ensures Holds(t') && t' == Filled(t, t'.data.kind, t'.data.num, t'.data.dec, NoBlock)
    ensures Proper(t')
    ensures ValueOf(t')
         == if isInt then Int(Numeric(SignedFields(neg, n))) else Dbl(if neg then -(n as int) else n, e)
  {
    if isInt {
      item.num := SignedFields(neg, n);
      item.kind := KInt;
    } else {
      item.num := SignedFields(neg, 0);
      item.dec := Decimals(if neg then -(n as int) else n, e);
      item.kind := KDouble;
    }
    t' := Filled(t, item.kind, item.num, item.dec, NoBlock);
  }

  /** `parse_string`: the decoded string in a block of its own. */
  method ParseString(item: Node, str: Text, ghost t: Tree, ghost live: set<object>)
    returns (r: Cursor, ghost t': Tree, ghost live': set<object>)
    requires Holds(t) && Apart(t) && Blank(t) && t.node == item && Objects(t) <= live
    requires !Strings.ParseString(str).Malformed?
    modifies item`valuestring, item`kind
    ensures Holds(t') && Grew(t, t', live, live') && fresh(Objects(t') - Objects(t)) && t'.kids == []
    ensures match Strings.ParseString(str)
      case Ok(s, k) => r == Pointer(k) && t'.data.kind == KString && t'.data.str.Block? && t'.data.str.text == s
      case Fail => r == NullPointer && t' == t
      case Malformed => true
  {
    hide Holds, Fields, Apart, Strings.ParseString;
    t', live' := t, live;
    if Peek(str) != QUOTE {
      NoQuote(str);
      return NullPointer, t', live';
    }
    assert allocated(Objects(t));
    var out, rest;
    ghost var s;
    out, rest, s := DecodeNew(str);
    t' := SetString(item, out, t, s);
    live' := live + {out};
    r := Pointer(rest);
  }

  lemma {:induction false} NoQuote(str: Text)
    requires Peek(str) != QUOTE
    ensures Strings.ParseString(str).Fail?
  {
  }

  /** Make the node a string node with the decoded block. */
  method SetString(item: Node, out: array<byte>, ghost t: Tree, ghost s: Text) returns (ghost t': Tree)
    requires Holds(t) && Apart(t) && Blank(t) && t.node == item && IsCString(out, s) && out !in Objects(t)
    modifies item`valuestring, item`kind
    ensures t' == Filled(t, KString, t.data.num, t.data.dec, Block(out, s))
    ensures Holds(t') && Apart(t') && Objects(t') == Objects(t) + {out}
  {
    item.valuestring := out;
    item.kind := KString;
    t' := Filled(t, KString, t.data.num, t.data.dec, Block(out, s));
  }

  /** Count, allocate, decode. */
  method DecodeNew(str: Text) returns (out: array<byte>, rest: Text, ghost s: Text)
    requires Peek(str) == QUOTE && !Strings.ParseString(str).Malformed?
    ensures fresh(out) && IsCString(out, s) && Strings.ParseString(str) == Ok(s, rest)
  {
    var len := StringCode.CountLiteral(str);
    out := new byte[len + 1];
    rest, s := StringCode.DecodeLiteral(str, out);
  }

  // -------------------------------------------------------------- values

  /** What a parse function promises about the node it filled. */
  ghost predicate Result(r: Cursor, t: Tree, p: Parsed<Json>) {
    match p
    case Ok(v, k) => r == Pointer(k) && ValueOf(t) == v && Proper(t)
    case Fail => r == NullPointer
    case Malformed => true
  }

  /** The literals `null`, `false` and `true`. */
  method SetKind(item: Node, kind: Kind, ghost t: Tree) returns (ghost t': Tree)
    requires Holds(t) && Blank(t) && t.node == item
    modifies item`kind, item`num
    ensures Holds(t') && t' == Filled(t, kind, t'.data.num, t.data.dec, NoBlock)
  {
    item.kind := kind;
    if kind == KTrue {
      item.num := item.num.(valueint := 1);
    }
    t' := Filled(t, kind, item.num, t.data.dec, NoBlock);
  }

  method ParseKeyword(item: Node, value: Text, ghost t: Tree, ghost live: set<object>)
    returns (r: Cursor, ghost t': Tree)
    requires Holds(t) && Apart(t) && Blank(t) && t.node == item && Objects(t) <= live
    requires Starts(value, Parser.NULL_TEXT) || Starts(value, Parser.FALSE_TEXT) || Starts(value, Parser.TRUE_TEXT)
    modifies item`kind, item`num
    ensures Holds(t') && Grew(t, t', live, live) && Objects(t') == Objects(t)
    ensures Result(r, t', Parser.ParseValue(value))
  {
    if Starts(value, Parser.NULL_TEXT) {
      t' := SetKind(item, KNull, t);
      r := Pointer(value[4..]);
    } else if Starts(value, Parser.FALSE_TEXT) {
      t' := SetKind(item, KFalse, t);
      r := Pointer(value[5..]);
    } else {
      t' := SetKind(item, KTrue, t);
      r := Pointer(value[4..]);
    }
    FilledGrew(t, t'.data.kind, t'.data.num, t'.data.dec, live);
  }

  lemma {:induction false} StringResult(r: Cursor, t: Tree, value: Text)
    requires Peek(value) == QUOTE && t.kids == [] && !t.data.isRef
    requires match Strings.ParseString(value)
      case Ok(s, k) => r == Pointer(k) && t.data.kind == KString && t.data.str.Block? && t.data.str.text == s
      case Fail => r == NullPointer
      case Malformed => true
    ensures Result(r, t, Parser.ParseValue(value))
  {
    hide Parser.ParseValue, Strings.ParseString;
    Parser.Dispatch(value);
    if Strings.ParseString(value).Ok? {
      assert AllProper(t.kids);
    }
  }

  lemma {:induction false} NumberResult(t: Tree, value: Text)
    requires Parser.StartsNumber(value)
    requires ValueOf(t) == Parser.NumberValue(ScanNumber(value)) && Proper(t)
    ensures Result(Pointer(ScanNumber(value).rest), t, Parser.ParseValue(value))
  {
    hide Parser.ParseValue, Strings.ParseString, ScanNumber;
    Parser.Dispatch(value);
  }

  lemma {:induction false} StringDefined(value: Text)
    requires Peek(value) == QUOTE && !Parser.ParseValue(value).Malformed?
    ensures !Strings.ParseString(value).Malformed?
  {
    hide Parser.ParseValue, Strings.ParseString, ScanNumber;
    Parser.Dispatch(value);
  }

  /** The branches of `parse_value` that do not recurse. */
  method ParseScalar(item: Node, value: Text, ghost t: Tree, ghost live: set<object>)
    returns (r: Cursor, ghost t': Tree, ghost live': set<object>)
    requires Holds(t) && Apart(t) && Blank(t) && t.node == item && Objects(t) <= live
    requires Peek(value) == QUOTE || Parser.StartsNumber(value)
    requires !Parser.ParseValue(value).Malformed?
    modifies item`kind, item`num, item`dec, item`valuestring
    ensures Holds(t') && Grew(t, t', live, live') && fresh(Objects(t') - Objects(t))
    ensures Result(r, t', Parser.ParseValue(value))
  {
    hide Holds, Fields, Result, ValueOf, Proper, Parser.ParseValue;
    if Peek(value) == QUOTE {
      StringDefined(value);
      r, t', live' := ParseString(item, value, t, live);
      StringResult(r, t', value);
    } else {
      var rest;
      rest, t' := ParseNumber(item, value, t);
      r, live' := Pointer(rest), live;
      NumberResult(t', value);
      FilledGrew(t, t'.data.kind, t'.data.num, t'.data.dec, live);
    }
  }

  /** `parse_value`. Whatever it returns, everything it allocated hangs below
      `item`. */
  method ParseValue(item: Node, value: Text, ghost t: Tree, ghost live: set<object>)
    returns (r: Cursor, ghost t': Tree, ghost live': set<object>)
    requires Holds(t) && Apart(t) && Blank(t) && t.node == item && Objects(t) <= live
    requires !Parser.ParseValue(value).Malformed?
    modifies item`child, item`kind, item`num, item`dec, item`valuestring
    ensures Holds(t') && Grew(t, t', live, live') && fresh(Objects(t') - Objects(t))
    ensures Result(r, t', Parser.ParseValue(value))
    decreases |value|, 1
  {
    if Starts(value, Parser.NULL_TEXT) || Starts(value, Parser.FALSE_TEXT) || Starts(value, Parser.TRUE_TEXT) {
      r, t' := ParseKeyword(item, value, t, live);
      live' := live;
    } else if Peek(value) == QUOTE || Parser.StartsNumber(value) {
      r, t', live' := ParseScalar(item, value, t, live);
    } else if Peek(value) == LBRACKET {
      r, t', live' := ParseArray(item, value, t, live);
    } else if Peek(value) == LBRACE {
      r, t', live' := ParseObject(item, value, t, live);
    } else {
      r, t', live' := NullPointer, t, live;
    }
  }

  // -------------------------------------------------------------- arrays

  /** A fresh `cJSON_New_Item`, as a tree. */
  ghost function NewTree(n: Node): Tree {
    Tree(n, Data(KFalse, false, IntFields(0, 0), Decimals(0, 0), NoBlock, NoBlock), [])
  }

  /** What the parse functions need to know of a new node. */
  ghost predicate IsNew(n: Node, t: Tree) {
    t.node == n && Blank(t) && t.data.key == NoBlock && Apart(t) && Objects(t) == {n}
  }

  /** `cJSON_New_Item` where nothing is linked yet. */
  method NewItem() returns (n: Node, ghost t: Tree)
    ensures fresh(n) && IsNew(n, t) && Holds(t)
    ensures n.next == null && n.prev == null
  {
    n := new Node();
    t := NewTree(n);
  }

  /** A new blank node as the node's first child. */
  method NewChild(item: Node, ghost t: Tree) returns (child: Node, ghost n: Tree)
    requires Holds(t) && Blank(t) && t.node == item
    modifies item`child
    ensures fresh(child) && IsNew(child, n) && Holds(n)
    ensures child.next == null && child.prev == null
    ensures Fields(Chain.WithKids(t, [n]))
  {
    assert allocated(Own(t));
    child, n := NewItem();
    item.child := child;
  }

  lemma {:induction false} KidsGrew(t: Tree, t1: Tree, ks: seq<Tree>, live: set<object>)
    requires Blank(t) && Apart(t) && Objects(t) <= live
    requires t1 == Filled(t, t1.data.kind, t1.data.num, t1.data.dec, NoBlock)
    requires AllApart(ks) && Own(t) !! AllObjects(ks)
    ensures Grew(t, Chain.WithKids(t1, ks), live, live + AllObjects(ks))
    ensures Objects(Chain.WithKids(t1, ks)) == Objects(t) + AllObjects(ks)
  {
  }

  lemma {:induction false} SameHead(t: Tree, a: Tree, b: Tree)
    requires Fields(Chain.WithKids(t, [a])) && a.node == b.node
    ensures Fields(Chain.WithKids(t, [b]))
  {
  }

  /** A new blank node linked behind the last one of the chain. */
  method NewAfter(child: Node, ghost ks: seq<Tree>) returns (item: Node, ghost n: Tree)
    requires ks != [] && child == Final(ks).node && Seg(null, ks, null) && AllApart(ks)
    modifies child`next
    ensures fresh(item) && IsNew(item, n) && Holds(n)
    ensures Seg(null, ks, item) && item.prev == child && item.next == null
  {
    assert allocated(AllObjects(ks));
    item, n := NewItem();
    Chain.SuffixObject(child, item, ks, n);
    SegSnoc(null, ks, n, null);
  }

  /** Give a blank node the type of a container, before its chain is parsed. */
  method SetContainer(item: Node, kind: Kind, ghost t: Tree, ghost live: set<object>) returns (ghost t': Tree)
    requires Holds(t) && Apart(t) && Blank(t) && t.node == item && Objects(t) <= live
    requires kind == KArray || kind == KObject
    modifies item`kind
    ensures t' == Filled(t, kind, t.data.num, t.data.dec, NoBlock)
    ensures Proper(t') && ValueOf(t') == if kind == KArray then Arr([]) else Obj([])
    ensures Holds(t') && Blank(t') && Grew(t, t', live, live) && Objects(t') == Objects(t)
  {
    item.kind := kind;
    t' := Filled(t, kind, t.data.num, t.data.dec, NoBlock);
    FilledGrew(t, kind, t.data.num, t.data.dec, live);
  }

  /** `[` and `]`, or `[` and items. */
  lemma {:induction false} ArrayCases(value: Text, v: Text)
    requires Peek(value) == LBRACKET && v == Skip(value[1..])
    ensures Peek(v) == RBRACKET ==> Parser.ParseValue(value) == Ok(Arr([]), v[1..])
    ensures Peek(v) != RBRACKET ==> var p := Parser.ParseItems(v);
      Parser.ParseValue(value)
      == if p.Ok? then Ok(Arr(p.value), p.rest) else if p.Fail? then Fail else Malformed
  {
    Parser.Dispatch(value);
  }

  lemma {:induction false} ArrayResult(r: Cursor, t: Tree, ks: seq<Tree>, p: Parsed<seq<Json>>)
    requires ItemsResult(r, ks, p) && t.data.kind == KArray && !t.data.isRef
    ensures Result(r, Chain.WithKids(t, ks),
      if p.Ok? then Ok(Arr(p.value), p.rest) else if p.Fail? then Fail else Malformed)
  {
  }

  method ParseArray(item: Node, value: Text, ghost t: Tree, ghost live: set<object>)
    returns (r: Cursor, ghost t': Tree, ghost live': set<object>)
    requires Holds(t) && Apart(t) && Blank(t) && t.node == item && Objects(t) <= live
    requires Peek(value) == LBRACKET && !Parser.ParseValue(value).Malformed?
    modifies item`child, item`kind
    ensures Holds(t') && Grew(t, t', live, live') && fresh(Objects(t') - Objects(t))
    ensures Result(r, t', Parser.ParseValue(value))
    decreases |value|, 0
  {
    hide Holds, Fields, ValueOf, Proper, ItemsResult, Parser.ParseValue, Parser.ParseItems;
    ghost var t1 := SetContainer(item, KArray, t, live);
    var v := Skip(value[1..]);
    ArrayCases(value, v);
    if Peek(v) == RBRACKET {
      r, t', live' := Pointer(v[1..]), t1, live;
    } else {
      ghost var ks;
      assert allocated(Own(t));
      r, ks, live' := ParseItems(item, v, t1, live);
      t' := Chain.WithKids(t1, ks);
      KidsGrew(t, t1, ks, live);
      Chain.Assemble(t1, ks);
      ArrayResult(r, t1, ks, Parser.ParseItems(v));
    }
  }

  /** The items parsed so far, as trees. */
  ghost predicate ItemsSoFar(ks: seq<Tree>, v: Text, p: Parsed<seq<Json>>) {
    ks != [] && AllProper(ks) && Steps.ItemsSoFar(ValuesOf(ks), v, p)
  }

  lemma {:induction false} ItemAdded(ks: seq<Tree>, k: Tree)
    requires AllProper(ks) && Proper(k)
    ensures AllProper(ks + [k]) && ValuesOf(ks + [k]) == ValuesOf(ks) + [ValueOf(k)]
  {
    ProperConcat(ks, [k]);
    ValuesConcat(ks, [k]);
    assert [k][1..] == [];
  }

  lemma {:induction false} FirstItem(s: Text, k: Tree, rest: Text)
    requires Parser.ParseValue(Skip(s)) == Ok(ValueOf(k), rest) && Proper(k)
    ensures ItemsSoFar([k], Skip(rest), Parser.ParseItems(s))
  {
    hide Parser.ParseValue, ValueOf;
    ItemAdded([], k);
    assert [] + [k] == [k] && [] + [ValueOf(k)] == [ValueOf(k)];
    Steps.ItemsStart(s, ValueOf(k), rest);
  }

  lemma {:induction false} NextItem(ks: seq<Tree>, v: Text, p: Parsed<seq<Json>>, k: Tree, rest: Text)
    requires ItemsSoFar(ks, v, p) && Peek(v) == COMMA
    requires Parser.ParseValue(Skip(v[1..])) == Ok(ValueOf(k), rest) && Proper(k)
    ensures ItemsSoFar(ks + [k], Skip(rest), p)
  {
    ItemAdded(ks, k);
    Steps.ItemsNext(ValuesOf(ks), v, p, ValueOf(k), rest);
  }

  ghost predicate ItemsResult(r: Cursor, ks: seq<Tree>, p: Parsed<seq<Json>>) {
    match p
    case Ok(vs, k) => r == Pointer(k) && ValuesOf(ks) == vs && AllProper(ks)
    case Fail => r == NullPointer
    case Malformed => true
  }

  /** The children of an array, from the first node to the closing bracket. */
  method ParseItems(item: Node, value: Text, ghost t: Tree, ghost live: set<object>)
    returns (r: Cursor, ghost ks: seq<Tree>, ghost live': set<object>)
    requires Holds(t) && Blank(t) && t.node == item
    requires Objects(t) <= live && !Parser.ParseItems(value).Malformed?
    modifies item`child
    ensures Seg(null, ks, null) && Fields(Chain.WithKids(t, ks)) && AllApart(ks) && fresh(AllObjects(ks))
    ensures live' == live + AllObjects(ks)
    ensures ItemsResult(r, ks, Parser.ParseItems(value))
    decreases |value|, 4
  {
    hide Holds, Fields, ValueOf, Proper, Steps.ItemsSoFar, Parser.ParseItems;
    var child, v;
    child, r, v, ks, live' := ParseFirst(item, value, t, live);
    if r.Pointer? {
      r, ks, live' := ParseRest(child, v, t, ks, live', Parser.ParseItems(value));
    }
  }

  /** The loop over commas and further items, and the closing bracket. */
  method ParseRest(child0: Node, v0: Text, ghost t: Tree, ghost ks0: seq<Tree>, ghost live: set<object>,
                   ghost p: Parsed<seq<Json>>)
    returns (r: Cursor, ghost ks: seq<Tree>, ghost live': set<object>)
    requires ItemsSoFar(ks0, v0, p) && !p.Malformed?
    requires child0 == Final(ks0).node && Seg(null, ks0, null) && AllApart(ks0)
    requires Fields(Chain.WithKids(t, ks0)) && Own(t) !! AllObjects(ks0)
    requires AllObjects(ks0) <= live
    modifies child0`next
    ensures Seg(null, ks, null) && AllApart(ks) && Fields(Chain.WithKids(t, ks))
    ensures AllObjects(ks0) <= AllObjects(ks) && fresh(AllObjects(ks) - AllObjects(ks0))
    ensures live' == live + AllObjects(ks)
    ensures ItemsResult(r, ks, p)
    decreases |v0|, 1
  {
    hide Holds, Fields, Apart, AllApart, ValueOf, Proper, Steps.ItemsSoFar;
    var child, v := child0, v0;
    ks, live' := ks0, live;
    while Peek(v) == COMMA
      invariant ItemsSoFar(ks, v, p) && |v| <= |v0|
      invariant child == Final(ks).node && Seg(null, ks, null) && AllApart(ks)
      invariant AllObjects(ks0) <= AllObjects(ks) && fresh(AllObjects(ks) - AllObjects(ks0))
      invariant child == child0 || fresh(child)
      invariant live' == live + AllObjects(ks) && Fields(Chain.WithKids(t, ks))
      invariant Own(t) !! AllObjects(ks)
      decreases |v|
    {
      child, r, v, ks, live' := ParseMore(child, v, t, ks, live', p);
      if r.NullPointer? {
        return;
      }
    }
    Steps.ItemsEnd(ValuesOf(ks), v, p);
    r := if Peek(v) == RBRACKET then Pointer(v[1..]) else NullPointer;
  }

  /** One turn of the comma loop. */
  method ParseMore(child: Node, v: Text, ghost t: Tree, ghost ks: seq<Tree>, ghost live: set<object>,
                   ghost p: Parsed<seq<Json>>)
    returns (item: Node, r: Cursor, v': Text, ghost ks': seq<Tree>, ghost live': set<object>)
    requires ItemsSoFar(ks, v, p) && Peek(v) == COMMA && !p.Malformed?
    requires child == Final(ks).node && Seg(null, ks, null) && AllApart(ks)
    requires Fields(Chain.WithKids(t, ks)) && Own(t) !! AllObjects(ks) && AllObjects(ks) <= live
    modifies child`next
    ensures ks' != [] && item == Final(ks').node && fresh(item) && Seg(null, ks', null) && AllApart(ks')
    ensures AllObjects(ks) <= AllObjects(ks') && fresh(AllObjects(ks') - AllObjects(ks))
    ensures live' == live + AllObjects(ks') && Fields(Chain.WithKids(t, ks'))
    ensures Own(t) !! AllObjects(ks')
    ensures if r.NullPointer? then p.Fail? else ItemsSoFar(ks', v', p) && |v'| < |v|
    decreases |v|, 0
  {
    hide Holds, Fields, Seg, Apart, AllApart, Objects, AllObjects, ValueOf, ValuesOf, Proper, AllProper;
    hide Steps.ItemsSoFar, Parser.ParseValue, Parser.ParseItems;
    Steps.ItemsComma(ValuesOf(ks), v, p);
    ghost var k;
    LastInside(ks);
    assert allocated(Own(t));
    item, r, k, live' := ParseNext(child, Skip(v[1..]), ks, live);
    ks', v' := ks + [k], v;
    ObjectsSnoc(ks, k);
    Chain.GrownFields(Chain.WithKids(t, ks), k);
    assert Final(ks') == k;
    if r.Pointer? {
      NextItem(ks, v, p, k, r.text);
      v' := Skip(r.text);
    }
  }

  /** The first child node and the parse of its value. */
  method ParseFirst(item: Node, value: Text, ghost t: Tree, ghost live: set<object>)
    returns (child: Node, r: Cursor, v: Text, ghost ks: seq<Tree>, ghost live': set<object>)
    requires Holds(t) && Blank(t) && t.node == item && Objects(t) <= live
    requires !Parser.ParseItems(value).Malformed?
    modifies item`child
    ensures ks != [] && child == Final(ks).node && fresh(child)
    ensures Seg(null, ks, null) && AllApart(ks) && fresh(AllObjects(ks))
    ensures Own(t) !! AllObjects(ks)
    ensures Fields(Chain.WithKids(t, ks)) && live' == live + AllObjects(ks)
    ensures var p := Parser.ParseItems(value);
      if r.NullPointer? then p.Fail? else ItemsSoFar(ks, v, p) && |v| < |value|
    decreases |value|, 3
  {
    ghost var k;
    Steps.ItemsHead(value);
    child, r, k, live' := ParseChild(item, Skip(value), t, live);
    ks, v := [k], value;
    if r.Pointer? {
      FirstItem(value, k, r.text);
      v := Skip(r.text);
      SuffixTrans(v, r.text, Skip(value));
    }
  }

  method ParseChild(item: Node, value: Text, ghost t: Tree, ghost live: set<object>)
    returns (child: Node, r: Cursor, ghost k: Tree, ghost live': set<object>)
    requires Holds(t) && Blank(t) && t.node == item && Objects(t) <= live
    requires !Parser.ParseValue(value).Malformed?
    modifies item`child
    ensures child == k.node && fresh(child)
    ensures Seg(null, [k], null) && AllApart([k]) && fresh(AllObjects([k]))
    ensures Own(t) !! AllObjects([k])
    ensures Fields(Chain.WithKids(t, [k])) && live' == live + AllObjects([k])
    ensures Result(r, k, Parser.ParseValue(value))
    decreases |value|, 2
  {
    hide Holds, Fields, ValueOf, Proper;
    assert allocated(Own(t));
    ghost var n;
    child, n := NewChild(item, t);
    r, k, live' := ParseValue(child, value, n, live + {child});
    SameHead(t, n, k);
    SegOne(null, k, null);
  }

  /** A new item after `child`, and the parse of the next value into it. */
  method ParseNext(child: Node, value: Text, ghost ks: seq<Tree>, ghost live: set<object>)
    returns (item: Node, r: Cursor, ghost k: Tree, ghost live': set<object>)
    requires ks != [] && child == Final(ks).node && Seg(null, ks, null) && AllApart(ks)
    requires AllObjects(ks) <= live && !Parser.ParseValue(value).Malformed?
    modifies child`next
    ensures item == k.node && fresh(item) && k.data.key == NoBlock
    ensures Seg(null, ks + [k], null) && AllApart(ks + [k]) && fresh(Objects(k))
    ensures live' == live + Objects(k)
    ensures Result(r, k, Parser.ParseValue(value))
    decreases |value|, 2
  {
    hide Holds, Fields, Apart, AllApart, ValueOf, Proper, Parser.ParseValue;
    assert allocated(AllObjects(ks));
    ghost var n;
    item, n := NewAfter(child, ks);
    r, k, live' := ParseValue(item, value, n, live + {item});
    SegSnoc(null, ks, k, null);
    ApartSnoc(ks, k);
  }

  // ------------------------------------------------------------- objects

  /** `{` and `}`, or `{` and members. */
  lemma {:induction false} ObjectCases(value: Text, v: Text)
    requires Peek(value) == LBRACE && v == Skip(value[1..])
    ensures Peek(v) == RBRACE ==> Parser.ParseValue(value) == Ok(Obj([]), v[1..])
    ensures Peek(v) != RBRACE ==> var p := Parser.ParseMembers(v);
      Parser.ParseValue(value)
      == if p.Ok? then Ok(Obj(p.value), p.rest) else if p.Fail? then Fail else Malformed
  {
    Parser.Dispatch(value);
  }

  lemma {:induction false} ObjectResult(r: Cursor, t: Tree, ks: seq<Tree>, p: Parsed<seq<Member>>)
    requires MembersResult(r, ks, p) && t.data.kind == KObject && !t.data.isRef
    ensures Result(r, Chain.WithKids(t, ks),
      if p.Ok? then Ok(Obj(p.value), p.rest) else if p.Fail? then Fail else Malformed)
  {
  }

  method ParseObject(item: Node, value: Text, ghost t: Tree, ghost live: set<object>)
    returns (r: Cursor, ghost t': Tree, ghost live': set<object>)
    requires Holds(t) && Apart(t) && Blank(t) && t.node == item && Objects(t) <= live
    requires Peek(value) == LBRACE && !Parser.ParseValue(value).Malformed?
    modifies item`child, item`kind
    ensures Holds(t') && Grew(t, t', live, live') && fresh(Objects(t') - Objects(t))
    ensures Result(r, t', Parser.ParseValue(value))
    decreases |value|, 0
  {
    hide Holds, Fields, ValueOf, Proper, MembersResult, Parser.ParseValue, Parser.ParseMembers;
    ghost var t1 := SetContainer(item, KObject, t, live);
    var v := Skip(value[1..]);
    ObjectCases(value, v);
    if Peek(v) == RBRACE {
      r, t', live' := Pointer(v[1..]), t1, live;
    } else {
      ghost var ks;
      assert allocated(Own(t));
      r, ks, live' := ParseMembers(item, v, t1, live);
      t' := Chain.WithKids(t1, ks);
      KidsGrew(t, t1, ks, live);
      Chain.Assemble(t1, ks);
      ObjectResult(r, t1, ks, Parser.ParseMembers(v));
    }
  }

  ghost function MemberOf(k: Tree): Member {
    Member(k.data.key.Str(), ValueOf(k))
  }

  ghost predicate MemberResult(r: Cursor, k: Tree, p: Parsed<Member>) {
    match p
    case Ok(m, rest) => r == Pointer(rest) && MemberOf(k) == m && k.data.key.Block? && Proper(k)
    case Fail => r == NullPointer
    case Malformed => true
  }

  /** The string just parsed becomes the member's name. */
  method MoveKey(child: Node, ghost t: Tree) returns (ghost t': Tree)
    requires Holds(t) && Apart(t) && t.node == child && !t.data.isRef && t.kids == []
    requires t.data.key == NoBlock
    modifies child`name, child`valuestring
    ensures t' == t.(data := t.data.(key := t.data.str, str := NoBlock))
    ensures Holds(t') && Apart(t') && Objects(t') == Objects(t)
  {
    child.name := child.valuestring;
    child.valuestring := null;
    t' := t.(data := t.data.(key := t.data.str, str := NoBlock));
  }

  lemma {:induction false} MemberCases(value: Text)
    ensures Parser.ParseMember(value)
         == match Strings.ParseString(Skip(value))
            case Ok(key, k) => Parser.MemberValue(key, Skip(k))
            case Fail => Fail
            case Malformed => Malformed
  {
  }

  /** A key, a colon and a value, into a new node. */
  method ParseMember(child: Node, value: Text, ghost t: Tree, ghost live: set<object>)
    returns (r: Cursor, ghost t': Tree, ghost live': set<object>)
    requires IsNew(child, t) && Holds(t) && child in live && !Parser.ParseMember(value).Malformed?
    modifies child`child, child`kind, child`num, child`dec, child`valuestring, child`name
    ensures Holds(t') && Apart(t') && t'.node == child && child in Objects(t')
    ensures live' == live + Objects(t') && fresh(Objects(t') - Objects(t))
    ensures MemberResult(r, t', Parser.ParseMember(value))
    decreases |value|, 2
  {
    hide Holds, Fields, Apart, ValueOf, Proper, Parser.ParseMember, Parser.MemberValue, Strings.ParseString;
    MemberCases(value);
    r, t', live' := ParseString(child, Skip(value), t, live);
    if r.Pointer? {
      t' := MoveKey(child, t');
      r, t', live' := ParseMemberValue(child, Skip(r.text), t', live');
    }
  }

  /** The colon and the value. */
  method ParseMemberValue(child: Node, v: Text, ghost t: Tree, ghost live: set<object>)
    returns (r: Cursor, ghost t': Tree, ghost live': set<object>)
    requires Holds(t) && Apart(t) && Blank(t) && t.node == child && Objects(t) <= live
    requires t.data.key.Block? && !Parser.MemberValue(t.data.key.text, v).Malformed?
    modifies child`child, child`kind, child`num, child`dec, child`valuestring
    ensures Holds(t') && Grew(t, t', live, live') && fresh(Objects(t') - Objects(t))
    ensures MemberResult(r, t', Parser.MemberValue(t.data.key.text, v))
    decreases |v|, 3
  {
    if Peek(v) != COLON {
      r, t', live' := NullPointer, t, live;
    } else {
      r, t', live' := ParseValue(child, Skip(v[1..]), t, live);
    }
  }

  /** The members parsed so far, as trees. */
  ghost predicate MembersSoFar(ks: seq<Tree>, v: Text, p: Parsed<seq<Member>>) {
    ks != [] && AllProper(ks) && Named(ks) && Steps.MembersSoFar(MembersOf(ks), v, p)
  }

  lemma {:induction false} MemberAdded(ks: seq<Tree>, k: Tree, m: Member)
    requires AllProper(ks) && Named(ks) && Proper(k) && k.data.key.Block? && MemberOf(k) == m
    ensures AllProper(ks + [k]) && Named(ks + [k]) && MembersOf(ks + [k]) == MembersOf(ks) + [m]
  {
    ProperConcat(ks, [k]);
    MembersConcat(ks, [k]);
    assert [k][1..] == [];
  }

  lemma {:induction false} FirstMemberParsed(s: Text, k: Tree, m: Member, rest: Text)
    requires Parser.ParseMember(s) == Ok(m, rest)
    requires Proper(k) && k.data.key.Block? && MemberOf(k) == m
    ensures MembersSoFar([k], Skip(rest), Parser.ParseMembers(s))
  {
    MemberAdded([], k, m);
    assert [] + [k] == [k] && [] + [m] == [m];
    Steps.MembersStart(s, m, rest);
  }

  lemma {:induction false} NextMemberParsed(ks: seq<Tree>, v: Text, p: Parsed<seq<Member>>, k: Tree, m: Member,
                                            rest: Text)
    requires MembersSoFar(ks, v, p) && Peek(v) == COMMA
    requires Parser.ParseMember(v[1..]) == Ok(m, rest)
    requires Proper(k) && k.data.key.Block? && MemberOf(k) == m
    ensures MembersSoFar(ks + [k], Skip(rest), p)
  {
    MemberAdded(ks, k, m);
    Steps.MembersNext(MembersOf(ks), v, p, m, rest);
  }

  ghost predicate MembersResult(r: Cursor, ks: seq<Tree>, p: Parsed<seq<Member>>) {
    match p
    case Ok(ms, k) => r == Pointer(k) && MembersOf(ks) == ms && AllProper(ks) && Named(ks)
    case Fail => r == NullPointer
    case Malformed => true
  }

  /** The children of an object, from the first node to the closing brace. */
  method ParseMembers(item: Node, value: Text, ghost t: Tree, ghost live: set<object>)
    returns (r: Cursor, ghost ks: seq<Tree>, ghost live': set<object>)
    requires Holds(t) && Blank(t) && t.node == item
    requires Objects(t) <= live && !Parser.ParseMembers(value).Malformed?
    modifies item`child
    ensures Seg(null, ks, null) && Fields(Chain.WithKids(t, ks)) && AllApart(ks) && fresh(AllObjects(ks))
    ensures live' == live + AllObjects(ks)
    ensures MembersResult(r, ks, Parser.ParseMembers(value))
    decreases |value|, 5
  {
    hide Holds, Fields, ValueOf, Proper, Steps.MembersSoFar, Parser.ParseMembers;
    var child, v;
    child, r, v, ks, live' := FirstMember(item, value, t, live);
    if r.Pointer? {
      r, ks, live' := RestMembers(child, v, t, ks, live', Parser.ParseMembers(value));
    }
  }

  method RestMembers(child0: Node, v0: Text, ghost t: Tree, ghost ks0: seq<Tree>, ghost live: set<object>,
                     ghost p: Parsed<seq<Member>>)
    returns (r: Cursor, ghost ks: seq<Tree>, ghost live': set<object>)
    requires MembersSoFar(ks0, v0, p) && !p.Malformed?
    requires child0 == Final(ks0).node && Seg(null, ks0, null) && AllApart(ks0)
    requires Fields(Chain.WithKids(t, ks0)) && Own(t) !! AllObjects(ks0)
    requires AllObjects(ks0) <= live
    modifies child0`next
    ensures Seg(null, ks, null) && AllApart(ks) && Fields(Chain.WithKids(t, ks))
    ensures AllObjects(ks0) <= AllObjects(ks) && fresh(AllObjects(ks) - AllObjects(ks0))
    ensures live' == live + AllObjects(ks)
    ensures MembersResult(r, ks, p)
    decreases |v0|, 1
  {
    hide Holds, Fields, Apart, AllApart, ValueOf, Proper, Steps.MembersSoFar;
    var child, v := child0, v0;
    ks, live' := ks0, live;
    while Peek(v) == COMMA
      invariant MembersSoFar(ks, v, p) && |v| <= |v0|
      invariant child == Final(ks).node && Seg(null, ks, null) && AllApart(ks)
      invariant AllObjects(ks0) <= AllObjects(ks) && fresh(AllObjects(ks) - AllObjects(ks0))
      invariant child == child0 || fresh(child)
      invariant live' == live + AllObjects(ks) && Fields(Chain.WithKids(t, ks))
      invariant Own(t) !! AllObjects(ks)
      decreases |v|
    {
      child, r, v, ks, live' := MoreMembers(child, v, t, ks, live', p);
      if r.NullPointer? {
        return;
      }
    }
    Steps.MembersEnd(MembersOf(ks), v, p);
    r := if Peek(v) == RBRACE then Pointer(v[1..]) else NullPointer;
  }

  /** One turn of the comma loop. */
  method MoreMembers(child: Node, v: Text, ghost t: Tree, ghost ks: seq<Tree>, ghost live: set<object>,
                     ghost p: Parsed<seq<Member>>)
    returns (item: Node, r: Cursor, v': Text, ghost ks': seq<Tree>, ghost live': set<object>)
    requires MembersSoFar(ks, v, p) && Peek(v) == COMMA && !p.Malformed?
    requires child == Final(ks).node && Seg(null, ks, null) && AllApart(ks)
    requires Fields(Chain.WithKids(t, ks)) && Own(t) !! AllObjects(ks) && AllObjects(ks) <= live
    modifies child`next
    ensures ks' != [] && item == Final(ks').node && fresh(item) && Seg(null, ks', null) && AllApart(ks')
    ensures AllObjects(ks) <= AllObjects(ks') && fresh(AllObjects(ks') - AllObjects(ks))
    ensures live' == live + AllObjects(ks') && Fields(Chain.WithKids(t, ks'))
    ensures Own(t) !! AllObjects(ks')
    ensures if r.NullPointer? then p.Fail? else MembersSoFar(ks', v', p) && |v'| < |v|
    decreases |v|, 0
  {
    hide Holds, Fields, Seg, Apart, AllApart, Objects, AllObjects, ValueOf, MembersOf, Proper, AllProper, Named;
    hide Steps.MembersSoFar, Parser.ParseMember, Parser.ParseMembers;
    Steps.MembersComma(MembersOf(ks), v, p);
    ghost var k;
    LastInside(ks);
    assert allocated(Own(t));
    item, r, k, live' := NextMember(child, v[1..], ks, live);
    ks', v' := ks + [k], v;
    ObjectsSnoc(ks, k);
    Chain.GrownFields(Chain.WithKids(t, ks), k);
    assert Final(ks') == k;
    if r.Pointer? {
      NextMemberParsed(ks, v, p, k, MemberOf(k), r.text);
      v' := Skip(r.text);
    }
  }

  /** The first child node and the parse of its member. */
  method FirstMember(item: Node, value: Text, ghost t: Tree, ghost live: set<object>)
    returns (child: Node, r: Cursor, v: Text, ghost ks: seq<Tree>, ghost live': set<object>)
    requires Holds(t) && Blank(t) && t.node == item && Objects(t) <= live
    requires !Parser.ParseMembers(value).Malformed?
    modifies item`child
    ensures ks != [] && child == Final(ks).node && fresh(child)
    ensures Seg(null, ks, null) && AllApart(ks) && fresh(AllObjects(ks))
    ensures Own(t) !! AllObjects(ks)
    ensures Fields(Chain.WithKids(t, ks)) && live' == live + AllObjects(ks)
    ensures var p := Parser.ParseMembers(value);
      if r.NullPointer? then p.Fail? else MembersSoFar(ks, v, p) && |v| < |value|
    decreases |value|, 4
  {
    Steps.MembersHead(value);
    ghost var k;
    child, r, k, live' := MemberChild(item, value, t, live);
    ks, v := [k], value;
    if r.Pointer? {
      FirstMemberParsed(value, k, MemberOf(k), r.text);
      v := Skip(r.text);
    }
  }

  method MemberChild(item: Node, value: Text, ghost t: Tree, ghost live: set<object>)
    returns (child: Node, r: Cursor, ghost k: Tree, ghost live': set<object>)
    requires Holds(t) && Blank(t) && t.node == item && Objects(t) <= live
    requires !Parser.ParseMember(value).Malformed?
    modifies item`child
    ensures child == k.node && fresh(child)
    ensures Seg(null, [k], null) && AllApart([k]) && fresh(AllObjects([k]))
    ensures Own(t) !! AllObjects([k])
    ensures Fields(Chain.WithKids(t, [k])) && live' == live + AllObjects([k])
    ensures MemberResult(r, k, Parser.ParseMember(value))
    decreases |value|, 3
  {
    hide Holds, Fields, ValueOf, Proper;
    assert allocated(Own(t));
    ghost var n;
    child, n := NewChild(item, t);
    r, k, live' := ParseMember(child, value, n, live + {child});
    SameHead(t, n, k);
    SegOne(null, k, null);
  }

  /** A new item after `child`, and the parse of the next member into it. */
  method NextMember(child: Node, value: Text, ghost ks: seq<Tree>, ghost live: set<object>)
    returns (item: Node, r: Cursor, ghost k: Tree, ghost live': set<object>)
    requires ks != [] && child == Final(ks).node && Seg(null, ks, null) && AllApart(ks)
    requires AllObjects(ks) <= live && !Parser.ParseMember(value).Malformed?
    modifies child`next
    ensures item == k.node && fresh(item)
    ensures Seg(null, ks + [k], null) && AllApart(ks + [k]) && fresh(Objects(k))
    ensures live' == live + Objects(k)
    ensures MemberResult(r, k, Parser.ParseMember(value))
    decreases |value|, 3
  {
    hide Holds, Fields, Apart, AllApart, ValueOf, Proper, Parser.ParseMember;
    assert allocated(AllObjects(ks));
    ghost var n;
    item, n := NewAfter(child, ks);
    r, k, live' := ParseMember(item, value, n, live + {item});
    SegSnoc(null, ks, k, null);
    ApartSnoc(ks, k);
  }

  // --------------------------------------------------------------- Parse

  lemma {:induction false} Restored(live: set<object>, item: object, made: set<object>)
    requires item in made && live !! made
    ensures live + {item} + made - made == live
  {
  }

  /** `cJSON_Parse`: the tree of the value at the start of the text, or null
      with every object allocated on the way freed again. */
  method Parse(value: Text, ghost live: set<object>)
    returns (c: Node?, ghost t: Tree, ghost live': set<object>)
    requires !Parser.Parse(value).Malformed? && allocated(live)
    ensures c != null <==> Parser.Parse(value).Ok?
    ensures c != null ==>
      && t.node == c && Holds(t) && Apart(t) && Proper(t) && fresh(Objects(t)) && t.data.key == NoBlock
      && c.next == null && c.prev == null
      && ValueOf(t) == Parser.Parse(value).value
      && live' == live + Objects(t)
    ensures c == null ==> live' == live
  {
    hide Holds, Fields, Apart, AllApart, Objects, ValueOf, Proper, Parser.ParseValue;
    var item, r;
    ghost var n;
    item, n := NewItem();
    r, t, live' := ParseValue(item, Skip(value), n, live + {item});
    c := item;
    if r.NullPointer? {
      SegOne(null, t, null);
      Restored(live, item, Objects(t));
      live' := Chain.Delete(c, null, [t], live');
      c := null;
    }
  }
}

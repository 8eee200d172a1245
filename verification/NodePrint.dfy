/** The print functions of cJSON.c as they run: sizes added up in one loop,
    a block of that size, and the text written into it through a cursor. */
module NodePrint {
  import opened Bytes
  import opened JsonValue
  import opened Nodes
  import opened Sharing
  import opened Printer
  import opened Printout
  import Parser
  import Items
  import NumberCode
  import StringCode

  // ------------------------------------------------------- writing pieces

  lemma {:induction false} StringEnd(src: array<byte>, s: Text, i: nat)
    requires IsCString(src, s) && i <= |s|
    ensures src[i] == 0 <==> i == |s|
    ensures i < |s| ==> src[i] == s[i]
  {
    if i < |s| {
      assert src[..|s|][i] == s[i];
    }
  }

  /** Copy a C string behind the cursor and move the cursor to its NUL. */
  method StrCpy(out: array<byte>, ptr: nat, src: array<byte>, ghost s: Text) returns (end: nat)
    requires IsCString(src, s) && out != src && ptr + |s| < out.Length
    modifies out
    ensures end == ptr + |s|
    ensures out[..end] == old(out[..ptr]) + s && out[end] == 0
  {
    var i := 0;
    StringEnd(src, s, 0);
    while src[i] != 0
      invariant 0 <= i <= |s| && IsCString(src, s)
      invariant src[i] == 0 <==> i == |s|
      invariant out[..ptr + i] == old(out[..ptr]) + s[..i]
      decreases |s| - i
    {
      StringEnd(src, s, i);
      out[ptr + i] := src[i];
      assert s[..i + 1] == s[..i] + [s[i]];
      i := i + 1;
      StringEnd(src, s, i);
    }
    out[ptr + i] := 0;
    assert s[..i] == s;
    end := ptr + i;
  }

  method StrLen(src: array<byte>, ghost s: Text) returns (n: nat)
    requires IsCString(src, s)
    ensures n == |s|
  {
    n := 0;
    StringEnd(src, s, 0);
    while src[n] != 0
      invariant 0 <= n <= |s| && (src[n] == 0 <==> n == |s|)
      decreases |s| - n
    {
      n := n + 1;
      StringEnd(src, s, n);
    }
  }

  /** Write one byte and step over it. */
  method PutByte(out: array<byte>, ptr: nat, b: byte) returns (end: nat)
    requires ptr < out.Length
    modifies out
    ensures end == ptr + 1 && out[..end] == old(out[..ptr]) + [b]
  {
    out[ptr] := b;
    end := ptr + 1;
  }

  /** The same, when a flag is set. */
  method PutIf(out: array<byte>, ptr: nat, b: byte, on: bool) returns (end: nat)
    requires on ==> ptr < out.Length
    requires ptr <= out.Length
    modifies out
    ensures end == ptr + (if on then 1 else 0)
    ensures out[..end] == old(out[..ptr]) + if on then [b] else []
  {
    end := ptr;
    if on {
      end := PutByte(out, ptr, b);
    }
  }

  lemma {:induction false} TabsLength(fmt: bool, n: nat)
    ensures |Tabs(fmt, n)| == if fmt then n else 0
  {
    if fmt && n > 0 {
      TabsLength(fmt, n - 1);
    }
  }

  /** Write the indentation: `n` tabs when formatting. */
  method PutTabs(out: array<byte>, ptr: nat, n: nat, fmt: bool) returns (end: nat)
    requires ptr + |Tabs(fmt, n)| <= out.Length
    modifies out
    ensures end == ptr + |Tabs(fmt, n)| && out[..end] == old(out[..ptr]) + Tabs(fmt, n)
  {
    end := ptr;
    TabsLength(fmt, n);
    if fmt {
      var j := 0;
      while j < n
        invariant 0 <= j <= n && end == ptr + j
        invariant out[..end] == old(out[..ptr]) + Tabs(true, j)
      {
        TabsSnoc(true, j);
        end := PutByte(out, end, TAB);
        j := j + 1;
      }
    }
  }

  // ------------------------------------------------------------- entries

  /** The printed entries are C strings. */
  ghost predicate AllStrings(entries: seq<array<byte>>, es: seq<Text>)
    reads entries
  {
    |entries| == |es| && forall i :: 0 <= i < |es| ==> IsCString(entries[i], es[i])
  }

  /** What `len` adds up for entries that take `extra` bytes more than their
      text. */
  function Slots(es: seq<Text>, extra: nat): nat {
    if es == [] then 0 else |es[0]| + extra + Slots(es[1..], extra)
  }

  lemma {:induction false} SlotsSnoc(es: seq<Text>, e: Text, extra: nat)
    ensures Slots(es + [e], extra) == Slots(es, extra) + |e| + extra
  {
    if es == [] {
      assert [e][1..] == [];
    } else {
      SlotsSnoc(es[1..], e, extra);
      assert (es + [e])[1..] == es[1..] + [e];
    }
  }

  /** The bytes `print_array` allows an entry besides its text. */
  function ItemExtra(fmt: bool): nat { if fmt then 3 else 2 }

  /** An item, its separator, and the items after it. */
  lemma {:induction false} ItemsRest(es: seq<Text>, fmt: bool, i: nat)
    requires i < |es|
    ensures JoinItems(es[i..], fmt)
         == es[i] + (if i + 1 < |es| then [COMMA] + Space(fmt) else []) + JoinItems(es[i + 1..], fmt)
  {
    var xs := es[i..];
    assert xs[0] == es[i] && xs[1..] == es[i + 1..];
    if i + 1 == |es| {
      assert es[i + 1..] == [];
      assert es[i] + [] + [] == es[i];
    }
  }

  lemma {:induction false} SlotsRest(es: seq<Text>, extra: nat, i: nat)
    requires i < |es|
    ensures Slots(es[i..], extra) == |es[i]| + extra + Slots(es[i + 1..], extra)
  {
    assert es[i..][1..] == es[i + 1..];
  }

  // -------------------------------------------------------------- arrays

  /** The turn of the composing loop of `print_array` for one entry. */
  method PutItem(out: array<byte>, ptr: nat, entry: array<byte>, more: bool, fmt: bool, ghost e: Text)
    returns (end: nat)
    requires IsCString(entry, e) && out != entry
    requires ptr + |e| + (if more then |[COMMA] + Space(fmt)| else 0) < out.Length
    modifies out
    ensures end == ptr + |e| + (if more then |[COMMA] + Space(fmt)| else 0)
    ensures out[..end] == old(out[..ptr]) + (e + if more then [COMMA] + Space(fmt) else [])
  {
    end := StrCpy(out, ptr, entry, e);
    if more {
      end := PutByte(out, end, COMMA);
      if fmt {
        end := PutByte(out, end, SPACE);
      }
      out[end] := 0;
    }
  }

  /** What is left of the block after `i` of `n` entries: one byte more for
      each separator written, and the separator the last entry does without. */
  function ArraySlack(n: nat, i: nat, fmt: bool): nat {
    if i < n || n == 0 then 4 + i else 5 + n + if fmt then 1 else 0
  }

  /** Compose the output array. */
  method PutItems(out: array<byte>, entries: seq<array<byte>>, fmt: bool, ghost es: seq<Text>) returns (end: nat)
    requires AllStrings(entries, es)
    requires out !in entries && out.Length == 5 + Slots(es, ItemExtra(fmt))
    modifies out
    ensures end + ArraySlack(|es|, |es|, fmt) == out.Length
    ensures out[..end] == [LBRACKET] + JoinItems(es, fmt)
  {
    hide JoinItems;
    out[0] := LBRACKET;
    end := 1;
    out[end] := 0;
    assert es[0..] == es && out[..1] == [LBRACKET];
    for i := 0 to |entries|
      invariant AllStrings(entries, es)
      invariant end + Slots(es[i..], ItemExtra(fmt)) + ArraySlack(|es|, i, fmt) == out.Length
      invariant out[..end] + JoinItems(es[i..], fmt) == [LBRACKET] + JoinItems(es, fmt)
    {
      ItemsRest(es, fmt, i);
      SlotsRest(es, ItemExtra(fmt), i);
      ghost var done := out[..end];
      ghost var piece := es[i] + if i + 1 < |es| then [COMMA] + Space(fmt) else [];
      end := PutItem(out, end, entries[i], i != |entries| - 1, fmt, es[i]);
      Assoc(done, piece, JoinItems(es[i + 1..], fmt));
    }
    assert es[|es|..] == [];
    NoItems(fmt);
    assert out[..end] + [] == out[..end];
  }

  lemma {:induction false} NoItems(fmt: bool)
    ensures JoinItems([], fmt) == []
  {
  }

  // ------------------------------------------------------------- objects

  /** The bytes `print_object` allows a member besides its two texts. */
  function MemberExtra(depth: nat, fmt: bool): nat { 2 + if fmt then 2 + depth else 0 }

  /** The names and the entries, one after the other: what `len` counts. */
  function Pairs(ns: seq<Text>, es: seq<Text>): (ps: seq<Text>)
    requires |ns| == |es|
    ensures |ps| == |ns|
  {
    seq(|ns|, i requires 0 <= i < |ns| => ns[i] + es[i])
  }

  lemma {:induction false} LineLength(n: Text, e: Text, depth: nat, fmt: bool, more: bool)
    ensures |MemberLine(n, e, depth, fmt, more)| + 1 == |n| + |e| + MemberExtra(depth, fmt) + if more then 1 else 0
  {
    TabsLength(fmt, depth);
  }

  lemma {:induction false} MembersRest(ns: seq<Text>, es: seq<Text>, depth: nat, fmt: bool, i: nat)
    requires |ns| == |es| && i < |ns|
    ensures JoinMembers(ns[i..], es[i..], depth, fmt)
         == MemberLine(ns[i], es[i], depth, fmt, i + 1 < |ns|) + JoinMembers(ns[i + 1..], es[i + 1..], depth, fmt)
  {
    hide MemberLine;
    var xs, ys := ns[i..], es[i..];
    assert xs[0] == ns[i] && xs[1..] == ns[i + 1..];
    assert ys[0] == es[i] && ys[1..] == es[i + 1..];
  }

  method PutName(out: array<byte>, ptr: nat, depth: nat, fmt: bool, name: array<byte>, ghost n: Text)
    returns (end: nat)
    requires IsCString(name, n) && out != name
    requires ptr + |NamePart(n, depth, fmt)| < out.Length
    modifies out
    ensures end == ptr + |NamePart(n, depth, fmt)|
    ensures out[..end] == old(out[..ptr]) + NamePart(n, depth, fmt)
  {
    hide Tabs;
    end := PutTabs(out, ptr, depth, fmt);
    end := StrCpy(out, end, name, n);
    end := PutByte(out, end, COLON);
    end := PutIf(out, end, TAB, fmt);
    assert old(out[..ptr]) + Tabs(fmt, depth) + n + [COLON] + OneTab(fmt)
        == old(out[..ptr]) + NamePart(n, depth, fmt);
  }

  method PutEntry(out: array<byte>, ptr: nat, fmt: bool, entry: array<byte>, more: bool, ghost e: Text)
    returns (end: nat)
    requires IsCString(entry, e) && out != entry
    requires ptr + |EntryPart(e, fmt, more)| < out.Length
    modifies out
    ensures end == ptr + |EntryPart(e, fmt, more)|
    ensures out[..end] == old(out[..ptr]) + EntryPart(e, fmt, more)
  {
    end := StrCpy(out, ptr, entry, e);
    end := PutIf(out, end, COMMA, more);
    end := PutIf(out, end, NEWLINE, fmt);
    out[end] := 0;
    assert old(out[..ptr]) + e + (if more then [COMMA] else []) + Newline(fmt)
        == old(out[..ptr]) + EntryPart(e, fmt, more);
  }

  /** The turn of the composing loop of `print_object` for one member. */
  method PutMember(out: array<byte>, ptr: nat, depth: nat, fmt: bool, name: array<byte>, entry: array<byte>,
                   more: bool, ghost n: Text, ghost e: Text)
    returns (end: nat)
    requires IsCString(name, n) && IsCString(entry, e) && out != name && out != entry
    requires ptr + |MemberLine(n, e, depth, fmt, more)| < out.Length
    modifies out
    ensures end == ptr + |MemberLine(n, e, depth, fmt, more)|
    ensures out[..end] == old(out[..ptr]) + MemberLine(n, e, depth, fmt, more)
  {
    hide NamePart, EntryPart;
    end := PutName(out, ptr, depth, fmt, name, n);
    end := PutEntry(out, end, fmt, entry, more, e);
    Assoc(old(out[..ptr]), NamePart(n, depth, fmt), EntryPart(e, fmt, more));
  }

  /** Write the opening brace, a newline when formatting, and a NUL. */
  method OpenObject(out: array<byte>, fmt: bool) returns (end: nat)
    requires out.Length > 2
    modifies out
    ensures end == 1 + |Newline(fmt)| && out[..end] == [LBRACE] + Newline(fmt)
  {
    out[0] := LBRACE;
    end := 1;
    assert out[..1] == [LBRACE];
    end := PutIf(out, end, NEWLINE, fmt);
    out[end] := 0;
  }

  /** What is left of the block after `i` of `n` members; the closing line and
      the NUL are still to come out of it. */
  function ObjectSlack(n: nat, i: nat, depth: nat, fmt: bool): nat {
    (if i < n || n == 0 then 6 else 7) + if fmt then depth else 0
  }

  /** What the composing loop has written when it reaches member `i`. */
  ghost predicate Composed(out: array<byte>, end: nat, i: nat, ns: seq<Text>, es: seq<Text>, depth: nat, fmt: bool)
    requires |ns| == |es| && i <= |ns| && depth > 0
    reads out
  {
    && end + Slots(Pairs(ns, es)[i..], MemberExtra(depth, fmt)) + ObjectSlack(|ns|, i, depth - 1, fmt) == out.Length
    && out[..end] + JoinMembers(ns[i..], es[i..], depth, fmt)
       == [LBRACE] + Newline(fmt) + JoinMembers(ns, es, depth, fmt)
  }

  method PutNextMember(out: array<byte>, ptr: nat, i: nat, names: seq<array<byte>>, entries: seq<array<byte>>,
                       depth: nat, fmt: bool, ghost ns: seq<Text>, ghost es: seq<Text>)
    returns (end: nat)
    requires depth > 0 && AllStrings(names, ns) && AllStrings(entries, es)
    requires |ns| == |es| && i < |ns| && Composed(out, ptr, i, ns, es, depth, fmt)
    requires out !in names && out !in entries
    modifies out
    ensures Composed(out, end, i + 1, ns, es, depth, fmt)
  {
    hide MemberLine, JoinMembers, Slots;
    MembersRest(ns, es, depth, fmt, i);
    SlotsRest(Pairs(ns, es), MemberExtra(depth, fmt), i);
    LineLength(ns[i], es[i], depth, fmt, i + 1 < |ns|);
    ghost var done := out[..ptr];
    end := PutMember(out, ptr, depth, fmt, names[i], entries[i], i != |names| - 1, ns[i], es[i]);
    Assoc(done, MemberLine(ns[i], es[i], depth, fmt, i + 1 < |ns|), JoinMembers(ns[i + 1..], es[i + 1..], depth, fmt));
  }

  /** Compose the output object; `depth` is the depth of the members. */
  method PutMembers(out: array<byte>, names: seq<array<byte>>, entries: seq<array<byte>>, depth: nat, fmt: bool,
                    ghost ns: seq<Text>, ghost es: seq<Text>)
    returns (end: nat)
    requires depth > 0 && |ns| == |es| && AllStrings(names, ns) && AllStrings(entries, es)
    requires out !in names && out !in entries
    requires out.Length == 7 + (if fmt then depth else 0) + Slots(Pairs(ns, es), MemberExtra(depth, fmt))
    modifies out
    ensures end + ObjectSlack(|ns|, |ns|, depth - 1, fmt) == out.Length
    ensures out[..end] == [LBRACE] + Newline(fmt) + JoinMembers(ns, es, depth, fmt)
  {
    hide MemberExtra;
    ghost var ps := Pairs(ns, es);
    end := OpenObject(out, fmt);
    assert ns[0..] == ns && es[0..] == es && ps[0..] == ps && ns[|ns|..] == [] && ps[|ps|..] == [];
    for i := 0 to |names|
      invariant AllStrings(names, ns) && AllStrings(entries, es)
      invariant Composed(out, end, i, ns, es, depth, fmt)
    {
      end := PutNextMember(out, end, i, names, entries, depth, fmt, ns, es);
    }
    assert out[..end] + [] == out[..end];
  }

  // ---------------------------------------------------------- whole trees

  lemma {:induction false} ArrayShape(t: Tree, depth: nat, fmt: bool)
    requires NoDoubles(t) && t.data.kind == KArray
    ensures NoDoublesIn(t.kids)
    ensures TreeText(t, depth, fmt) == ArrayText(TreeTexts(t.kids, depth + 1, fmt), fmt)
  {
  }

  lemma {:induction false} ObjectShape(t: Tree, depth: nat, fmt: bool)
    requires NoDoubles(t) && t.data.kind == KObject
    ensures NoDoublesIn(t.kids)
    ensures TreeText(t, depth, fmt)
         == ObjectText(TreeNames(t.kids), TreeTexts(t.kids, depth + 1, fmt), depth, fmt)
  {
  }

  lemma {:induction false} ShownChain(t: Tree)
    requires Shows(t)
    ensures t.node.kind == t.data.kind && t.node.child == Head(t.kids, null) && Row(t.kids)
    ensures BlockIs(t.node.name, t.data.key)
  {
  }

  lemma {:induction false} StringsNulFree(entries: seq<array<byte>>, es: seq<Text>)
    requires AllStrings(entries, es)
    ensures AllNulFree(es)
  {
  }

  lemma {:induction false} NoEntries(es: seq<Text>, extra: nat)
    ensures AllStrings([], es[..0]) && Slots(es[..0], extra) == 0
  {
  }

  lemma {:induction false} AllStringsSnoc(entries: seq<array<byte>>, es: seq<Text>, i: nat, a: array<byte>)
    requires i < |es| && AllStrings(entries, es[..i]) && IsCString(a, es[i])
    ensures AllStrings(entries + [a], es[..i + 1])
  {
  }

  lemma {:induction false} SlotsNext(es: seq<Text>, i: nat, extra: nat)
    requires i < |es|
    ensures Slots(es[..i + 1], extra) == Slots(es[..i], extra) + |es[i]| + extra
  {
    assert es[..i + 1] == es[..i] + [es[i]];
    SlotsSnoc(es[..i], es[i], extra);
  }

  /** The text of a string field, present or not. */
  method PrintBlock(str: array?<byte>, ghost b: Block) returns (out: array<byte>)
    requires BlockIs(str, b)
    ensures fresh(out) && IsCString(out, BlockText(b))
  {
    out := StringCode.PrintStringPtr(str, b.Str());
  }

  /** The branches of `print_value` that do not recurse. */
  method PrintScalar(item: Node, depth: nat, fmt: bool, ghost t: Tree) returns (out: array<byte>)
    requires Shows(t) && t.node == item && NoDoubles(t)
    requires item.kind != KArray && item.kind != KObject
    ensures fresh(out) && IsCString(out, TreeText(t, depth, fmt))
  {
    if item.kind == KNull {
      out := Items.StrDup(Parser.NULL_TEXT);
    } else if item.kind == KFalse {
      out := Items.StrDup(Parser.FALSE_TEXT);
    } else if item.kind == KTrue {
      out := Items.StrDup(Parser.TRUE_TEXT);
    } else if item.kind == KInt {
      out := NumberCode.PrintInt(item.num);
    } else {
      assert item.kind == KString;
      out := PrintBlock(item.valuestring, t.data.str);
    }
  }

  /** `print_value`: the text of what the node shows, for either format and any
      depth. */
  method PrintValue(item: Node, depth: nat, fmt: bool, ghost t: Tree) returns (out: array<byte>)
    requires Shows(t) && t.node == item && NoDoubles(t)
    ensures fresh(out) && IsCString(out, TreeText(t, depth, fmt))
    decreases t, 2
  {
    hide TreeText, NoDoubles, IsCString;
    if item.kind == KArray {
      out := PrintArray(item, depth, fmt, t);
    } else if item.kind == KObject {
      out := PrintObject(item, depth, fmt, t);
    } else {
      out := PrintScalar(item, depth, fmt, t);
    }
  }

  /** `print_array`. */
  method PrintArray(item: Node, depth: nat, fmt: bool, ghost t: Tree) returns (out: array<byte>)
    requires Shows(t) && t.node == item && NoDoubles(t) && item.kind == KArray
    ensures fresh(out) && IsCString(out, TreeText(t, depth, fmt))
    ensures var n, f := |t.kids|, if fmt then 1 else 0;
      out.Length == |TreeText(t, depth, fmt)| + 1 + if n == 0 then 2 else n + 3 + f
    decreases t, 1
  {
    hide Shows, Row, AllStrings, NoDoubles, TreeText, TreeTexts, JoinItems, Slots, ItemExtra;
    ShownChain(t);
    ArrayShape(t, depth, fmt);
    ghost var es := TreeTexts(t.kids, depth + 1, fmt);
    var entries, len := PrintChildren(item, depth + 1, fmt, t);
    StringsNulFree(entries, es);
    JoinItemsNulFree(es, fmt);
    out := new byte[len];
    var end := PutItems(out, entries, fmt, es);
    out[end] := RBRACKET;
    out[end + 1] := 0;
    assert out[..end + 1] == ArrayText(es, fmt);
  }

  /** The printed children of an array, and the size that holds them. */
  method PrintChildren(item: Node, depth: nat, fmt: bool, ghost t: Tree)
    returns (entries: seq<array<byte>>, len: nat)
    requires Shows(t) && t.node == item && NoDoublesIn(t.kids)
    ensures AllStrings(entries, TreeTexts(t.kids, depth, fmt))
    ensures len == 5 + Slots(TreeTexts(t.kids, depth, fmt), ItemExtra(fmt))
    decreases t, 0
  {
    hide Shows, TreeText, TreeTexts, NoDoubles, NoDoublesIn, Slots, AllStrings, IsCString;
    ghost var es := TreeTexts(t.kids, depth, fmt);
    var child := item.child;
    len, entries := 5, [];
    ShownChain(t);
    NoEntries(es, ItemExtra(fmt));
    assert t.kids[0..] == t.kids;
    while child != null
      invariant |entries| <= |t.kids| && Row(t.kids)
      invariant child == Head(t.kids[|entries|..], null)
      invariant AllStrings(entries, es[..|entries|])
      invariant len == 5 + Slots(es[..|entries|], ItemExtra(fmt))
      decreases |t.kids| - |entries|
    {
      ghost var i := |entries|;
      RowAt(t.kids, i);
      TextAt(t.kids, depth, fmt, i);
      assert allocated(AllObjects(t.kids));
      var ret := PrintValue(child, depth, fmt, t.kids[i]);
      SlotsNext(es, i, ItemExtra(fmt));
      AllStringsSnoc(entries, es, i, ret);
      var n := StrLen(ret, es[i]);
      entries, len := entries + [ret], len + n + ItemExtra(fmt);
      child := child.next;
    }
    assert es[..|es|] == es;
  }

  /** `print_object`; a non-empty object leaves exactly five bytes unused. */
  method PrintObject(item: Node, depth: nat, fmt: bool, ghost t: Tree) returns (out: array<byte>)
    requires Shows(t) && t.node == item && NoDoubles(t) && item.kind == KObject
    ensures fresh(out) && IsCString(out, TreeText(t, depth, fmt))
    ensures out.Length == |TreeText(t, depth, fmt)| + 1 + if t.kids == [] then 4 else 5
    decreases t, 1
  {
    hide Shows, Row, AllStrings, NoDoubles, TreeText, TreeTexts, TreeNames, JoinMembers, Slots, MemberExtra, Tabs;
    hide NoDoublesIn, Pairs;
    ShownChain(t);
    ObjectShape(t, depth, fmt);
    ghost var ns, es := TreeNames(t.kids), TreeTexts(t.kids, depth + 1, fmt);
    var names, entries, len := PrintNamed(item, depth + 1, fmt, t);
    StringsNulFree(names, ns);
    StringsNulFree(entries, es);
    ObjectNulFree(ns, es, depth, fmt);
    out := new byte[len];
    var end := PutMembers(out, names, entries, depth + 1, fmt, ns, es);
    TabsLength(fmt, depth);
    end := PutTabs(out, end, depth, fmt);
    out[end] := RBRACE;
    out[end + 1] := 0;
    assert out[..end + 1] == ObjectText(ns, es, depth, fmt);
  }

  /** A child's name and value, and the length of the two. */
  method PrintNamedChild(child: Node, depth: nat, fmt: bool, ghost k: Tree)
    returns (str: array<byte>, ret: array<byte>, n: nat)
    requires Shows(k) && k.node == child && NoDoubles(k)
    ensures IsCString(str, BlockText(k.data.key)) && IsCString(ret, TreeText(k, depth, fmt))
    ensures n == |BlockText(k.data.key)| + |TreeText(k, depth, fmt)|
    decreases k, 3
  {
    hide Shows, TreeText, NoDoubles, BlockText, IsCString;
    ShownChain(k);
    assert allocated(Objects(k));
    str := PrintBlock(child.name, k.data.key);
    ret := PrintValue(child, depth, fmt, k);
    var m := StrLen(ret, TreeText(k, depth, fmt));
    n := StrLen(str, BlockText(k.data.key));
    n := n + m;
  }

  /** The printed names and children of an object, and the size that holds them. */
  method PrintNamed(item: Node, depth: nat, fmt: bool, ghost t: Tree)
    returns (names: seq<array<byte>>, entries: seq<array<byte>>, len: nat)
    requires Shows(t) && t.node == item && NoDoublesIn(t.kids)
    ensures AllStrings(names, TreeNames(t.kids)) && AllStrings(entries, TreeTexts(t.kids, depth, fmt))
    ensures len == 7 + (if fmt then depth else 0)
      + Slots(Pairs(TreeNames(t.kids), TreeTexts(t.kids, depth, fmt)), MemberExtra(depth, fmt))
    decreases t, 0
  {
    hide Shows, Row, TreeText, TreeTexts, TreeNames, BlockText, NoDoubles, NoDoublesIn, Slots, AllStrings, MemberExtra;
    hide IsCString;
    ghost var ns, es := TreeNames(t.kids), TreeTexts(t.kids, depth, fmt);
    ghost var ps := Pairs(ns, es);
    var child := item.child;
    len, names, entries := 7 + if fmt then depth else 0, [], [];
    ShownChain(t);
    NoEntries(es, 0);
    NoEntries(ns, 0);
    NoEntries(ps, MemberExtra(depth, fmt));
    assert t.kids[0..] == t.kids;
    while child != null
      invariant |names| == |entries| <= |t.kids| && Row(t.kids)
      invariant child == Head(t.kids[|entries|..], null)
      invariant AllStrings(names, ns[..|entries|]) && AllStrings(entries, es[..|entries|])
      invariant len == 7 + (if fmt then depth else 0) + Slots(ps[..|entries|], MemberExtra(depth, fmt))
      decreases |t.kids| - |entries|
    {
      ghost var i := |entries|;
      RowAt(t.kids, i);
      TextAt(t.kids, depth, fmt, i);
      assert allocated(AllObjects(t.kids));
      var str, ret, n := PrintNamedChild(child, depth, fmt, t.kids[i]);
      SlotsNext(ps, i, MemberExtra(depth, fmt));
      AllStringsSnoc(names, ns, i, str);
      AllStringsSnoc(entries, es, i, ret);
      names, entries, len := names + [str], entries + [ret], len + n + MemberExtra(depth, fmt);
      child := child.next;
    }
    assert es[..|es|] == es && ns[..|ns|] == ns && ps[..|ps|] == ps;
  }

  /** `cJSON_Print` and `cJSON_PrintUnformatted`. */
  method PrintText(item: Node, fmt: bool, ghost t: Tree) returns (out: array<byte>)
    requires Shows(t) && t.node == item && NoDoubles(t)
    ensures fresh(out) && IsCString(out, TreeText(t, 0, fmt))
  {
    out := PrintValue(item, 0, fmt, t);
  }
}

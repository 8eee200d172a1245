/** The text the print functions make of the nodes they see, with an empty text
    for a string or a name that is not there. */
module Printout {
  import opened Bytes
  import opened Numbers
  import opened Strings
  import opened JsonValue
  import opened Nodes
  import opened Printer
  import Parser

  ghost predicate NoDoubles(t: Tree)
    decreases t
  {
    t.data.kind != KDouble && (t.data.kind == KArray || t.data.kind == KObject ==> NoDoublesIn(t.kids))
  }

  ghost predicate NoDoublesIn(ks: seq<Tree>)
    decreases ks
  {
    ks == [] || (NoDoubles(ks[0]) && NoDoublesIn(ks[1..]))
  }

  // --------------------------------------------------------- composed texts

  /** The entries of an array, with their separators. */
  function JoinItems(es: seq<Text>, fmt: bool): Text {
    if es == [] then []
    else if |es| == 1 then es[0]
    else es[0] + ([COMMA] + Space(fmt)) + JoinItems(es[1..], fmt)
  }

  /** One line of an object: the name up to the entry, and the entry. */
  function NamePart(n: Text, depth: nat, fmt: bool): Text {
    Tabs(fmt, depth) + n + [COLON] + OneTab(fmt)
  }

  function EntryPart(e: Text, fmt: bool, more: bool): Text {
    e + (if more then [COMMA] else []) + Newline(fmt)
  }

  function MemberLine(n: Text, e: Text, depth: nat, fmt: bool, more: bool): Text {
    NamePart(n, depth, fmt) + EntryPart(e, fmt, more)
  }

  /** The lines of an object. */
  function JoinMembers(ns: seq<Text>, es: seq<Text>, depth: nat, fmt: bool): Text
    requires |ns| == |es|
  {
    if ns == [] then []
    else MemberLine(ns[0], es[0], depth, fmt, |ns| > 1) + JoinMembers(ns[1..], es[1..], depth, fmt)
  }

  function ArrayText(es: seq<Text>, fmt: bool): Text {
    [LBRACKET] + JoinItems(es, fmt) + [RBRACKET]
  }

  /** `depth` is the depth of the object, one less than that of its members. */
  function ObjectText(ns: seq<Text>, es: seq<Text>, depth: nat, fmt: bool): Text
    requires |ns| == |es|
  {
    [LBRACE] + Newline(fmt) + JoinMembers(ns, es, depth + 1, fmt) + Tabs(fmt, depth) + [RBRACE]
  }

  // ------------------------------------------------------- texts of a tree

  ghost function BlockText(b: Block): Text {
    if b.NoBlock? then [] else Quoted(b.text)
  }

  /** A string that is not there prints as nothing, any other between quotes. */
  lemma {:induction false} BlockTextIs(b: Block)
    ensures BlockText(b) == if b.NoBlock? then [] else Ascii("\"") + EscapeAll(b.text) + Ascii("\"")
  {
    assert Ascii("\"") == [QUOTE];
  }

  ghost function TreeText(t: Tree, depth: nat, fmt: bool): Text
    requires NoDoubles(t)
    decreases t
  {
    match t.data.kind
    case KFalse => Parser.FALSE_TEXT
    case KTrue => Parser.TRUE_TEXT
    case KNull => Parser.NULL_TEXT
    case KInt => IntText(Numeric(t.data.num))
    case KDouble => []
    case KString => BlockText(t.data.str)
    case KArray => ArrayText(TreeTexts(t.kids, depth + 1, fmt), fmt)
    case KObject => ObjectText(TreeNames(t.kids), TreeTexts(t.kids, depth + 1, fmt), depth, fmt)
  }

  ghost function TreeTexts(ks: seq<Tree>, depth: nat, fmt: bool): (es: seq<Text>)
    requires NoDoublesIn(ks)
    ensures |es| == |ks|
    decreases ks
  {
    if ks == [] then [] else [TreeText(ks[0], depth, fmt)] + TreeTexts(ks[1..], depth, fmt)
  }

  ghost function TreeNames(ks: seq<Tree>): (ns: seq<Text>)
    ensures |ns| == |ks|
  {
    if ks == [] then [] else [BlockText(ks[0].data.key)] + TreeNames(ks[1..])
  }

  lemma {:induction false} TextAt(ks: seq<Tree>, depth: nat, fmt: bool, i: nat)
    requires NoDoublesIn(ks) && i < |ks|
    ensures NoDoubles(ks[i])
    ensures TreeTexts(ks, depth, fmt)[i] == TreeText(ks[i], depth, fmt)
    ensures TreeNames(ks)[i] == BlockText(ks[i].data.key)
  {
    hide TreeText, NoDoubles, BlockText;
    if i > 0 {
      TextAt(ks[1..], depth, fmt, i - 1);
    }
  }

  // ----------------------------------- proper trees print like their values

  lemma {:induction false} ProperPrints(t: Tree, depth: nat, fmt: bool)
    requires Proper(t) && Printable(ValueOf(t))
    ensures NoDoubles(t) && TreeText(t, depth, fmt) == Print(ValueOf(t), depth, fmt)
    decreases t
  {
    match t.data.kind
    case KArray => ItemsPrint(t.kids, depth + 1, fmt);
    case KObject => MembersPrint(t.kids, depth + 1, fmt);
    case _ =>
  }

  lemma {:induction false} ItemsPrint(ks: seq<Tree>, depth: nat, fmt: bool)
    requires AllProper(ks) && PrintableItems(ValuesOf(ks))
    ensures NoDoublesIn(ks) && JoinItems(TreeTexts(ks, depth, fmt), fmt) == PrintItems(ValuesOf(ks), depth, fmt)
    decreases ks
  {
    if ks != [] {
      var vs := ValuesOf(ks);
      assert vs[0] == ValueOf(ks[0]) && vs[1..] == ValuesOf(ks[1..]);
      ProperPrints(ks[0], depth, fmt);
      ItemsPrint(ks[1..], depth, fmt);
      hide TreeText, Print, Proper, ValueOf;
      assert TreeTexts(ks, depth, fmt)[1..] == TreeTexts(ks[1..], depth, fmt);
    }
  }

  lemma {:induction false} FirstLine(ms: seq<Member>, depth: nat, fmt: bool)
    requires PrintableMembers(ms) && ms != []
    ensures PrintMembers(ms, depth, fmt)
         == MemberLine(Quoted(ms[0].key), Print(ms[0].value, depth, fmt), depth, fmt, |ms| > 1)
            + PrintMembers(ms[1..], depth, fmt)
  {
    hide Print, Quoted, Tabs;
  }

  lemma {:induction false} MembersPrint(ks: seq<Tree>, depth: nat, fmt: bool)
    requires AllProper(ks) && Named(ks) && PrintableMembers(MembersOf(ks))
    ensures NoDoublesIn(ks)
    ensures JoinMembers(TreeNames(ks), TreeTexts(ks, depth, fmt), depth, fmt)
         == PrintMembers(MembersOf(ks), depth, fmt)
    decreases ks
  {
    hide TreeText, Print, Proper, ValueOf, Quoted, MemberLine, Tabs;
    if ks != [] {
      var ms := MembersOf(ks);
      assert ms[0] == Member(ks[0].data.key.Str(), ValueOf(ks[0])) && ms[1..] == MembersOf(ks[1..]);
      ProperPrints(ks[0], depth, fmt);
      MembersPrint(ks[1..], depth, fmt);
      assert TreeTexts(ks, depth, fmt)[1..] == TreeTexts(ks[1..], depth, fmt);
      assert TreeNames(ks)[1..] == TreeNames(ks[1..]);
      FirstLine(ms, depth, fmt);
    }
  }

  // ----------------------------------------------------- texts are strings

  ghost predicate AllNulFree(es: seq<Text>) {
    forall i :: 0 <= i < |es| ==> NulFree(es[i])
  }

  lemma {:induction false} TabsNulFree(fmt: bool, n: nat)
    ensures NulFree(Tabs(fmt, n))
  {
    if fmt && n > 0 {
      TabsNulFree(fmt, n - 1);
    }
  }

  lemma {:induction false} JoinItemsNulFree(es: seq<Text>, fmt: bool)
    requires AllNulFree(es)
    ensures NulFree(JoinItems(es, fmt))
  {
    if es != [] {
      JoinItemsNulFree(es[1..], fmt);
    }
  }

  lemma {:induction false} ObjectNulFree(ns: seq<Text>, es: seq<Text>, depth: nat, fmt: bool)
    requires |ns| == |es| && AllNulFree(ns) && AllNulFree(es)
    ensures NulFree(ObjectText(ns, es, depth, fmt))
  {
    hide JoinMembers, Tabs;
    JoinMembersNulFree(ns, es, depth + 1, fmt);
    TabsNulFree(fmt, depth);
  }

  lemma {:induction false} JoinMembersNulFree(ns: seq<Text>, es: seq<Text>, depth: nat, fmt: bool)
    requires |ns| == |es| && AllNulFree(ns) && AllNulFree(es)
    ensures NulFree(JoinMembers(ns, es, depth, fmt))
  {
    hide Tabs;
    if es != [] {
      TabsNulFree(fmt, depth);
      JoinMembersNulFree(ns[1..], es[1..], depth, fmt);
    }
  }
}

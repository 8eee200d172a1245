/** What the two formats of a printed value look like, byte for byte. */
module Layout {
  import opened Bytes
  import opened Numbers
  import opened Strings
  import opened JsonValue
  import opened Printer
  import Parser

  /** `n` tabs. */
  function Times(n: nat): (t: Text)
    ensures |t| == n && forall i :: 0 <= i < n ==> t[i] == '\t' as int
  {
    seq(n, i => 9)
  }

  /** The texts, with the separator between every two of them. */
  function Joined(ts: seq<Text>, sep: Text): Text {
    if ts == [] then [] else if |ts| == 1 then ts[0] else ts[0] + sep + Joined(ts[1..], sep)
  }

  function Concat(ts: seq<Text>): Text {
    if ts == [] then [] else ts[0] + Concat(ts[1..])
  }

  function Items(vs: seq<Json>, depth: nat, fmt: bool): (ts: seq<Text>)
    requires PrintableItems(vs)
    ensures |ts| == |vs| && forall i :: 0 <= i < |vs| ==> ts[i] == Print(vs[i], depth, fmt)
  {
    seq(|vs|, i requires 0 <= i < |vs| => Print(vs[i], depth, fmt))
  }

  /** A member without format: name, colon and value. */
  function Entry(m: Member, depth: nat): Text
    requires NulFree(m.key) && Printable(m.value)
  {
    Quoted(m.key) + Ascii(":") + Print(m.value, depth, false)
  }

  function Entries(ms: seq<Member>, depth: nat): (ts: seq<Text>)
    requires PrintableMembers(ms)
    ensures |ts| == |ms| && forall i :: 0 <= i < |ms| ==> ts[i] == Entry(ms[i], depth)
  {
    seq(|ms|, i requires 0 <= i < |ms| => Entry(ms[i], depth))
  }

  /** A formatted member on its line: tabs, name, colon, one tab, value, and a
      comma unless it is the last one. */
  function Row(m: Member, depth: nat, last: bool): Text
    requires NulFree(m.key) && Printable(m.value)
  {
    Times(depth) + Quoted(m.key) + Ascii(":\t") + Print(m.value, depth, true) + Ascii(if last then "\n" else ",\n")
  }

  function Rows(ms: seq<Member>, depth: nat): (ts: seq<Text>)
    requires PrintableMembers(ms)
    ensures |ts| == |ms| && forall i :: 0 <= i < |ms| ==> ts[i] == Row(ms[i], depth, i + 1 == |ms|)
  {
    seq(|ms|, i requires 0 <= i < |ms| => Row(ms[i], depth, i + 1 == |ms|))
  }

  // ---------------------------------------------------------------- layout

  /** Scalars look the same in both formats. */
  lemma {:induction false} ScalarLayout(v: Json, depth: nat, fmt: bool)
    requires Printable(v) && !v.Arr? && !v.Obj?
    ensures Print(v, depth, fmt)
         == match v
            case Null => Ascii("null")
            case Bool(b) => Ascii(if b then "true" else "false")
            case Int(n) => (if n < 0 then Ascii("-") else []) + Decimal(Abs(n))
            case Str(s) => Ascii("\"") + EscapeAll(s) + Ascii("\"")
            case _ => []
  {
    Parser.KeywordsAre();
    MarksAre();
    hide Ascii, Decimal, EscapeAll;
    assert QUOTE == 34 && Ascii("\"") == [34] && Ascii("-") == [45] by {
      AsciiOne();
    }
  }

  lemma {:induction false} AsciiOne()
    ensures Ascii("\"") == [34] && Ascii("-") == [45] && Ascii("[") == [91] && Ascii("]") == [93]
    ensures Ascii("{") == [123] && Ascii("}") == [125] && Ascii(":") == [58] && Ascii(",") == [44]
    ensures Ascii(":\t") == [58, 9] && Ascii(", ") == [44, 32] && Ascii("{\n") == [123, 10]
    ensures Ascii("\n") == [10] && Ascii(",\n") == [44, 10]
  {
  }

  lemma {:induction false} TabsAre(n: nat)
    ensures Tabs(true, n) == Times(n) && Tabs(false, n) == []
  {
    if n > 0 {
      TabsAre(n - 1);
      assert Times(n) == [9] + Times(n - 1);
    }
  }

  /** The items of an array stand between the brackets, with a comma between
      them, and a blank behind the comma when formatted. */
  lemma {:induction false} ArrayLayout(vs: seq<Json>, depth: nat, fmt: bool)
    requires PrintableItems(vs)
    ensures Print(Arr(vs), depth, fmt)
         == Ascii("[") + Joined(Items(vs, depth + 1, fmt), Ascii(if fmt then ", " else ",")) + Ascii("]")
  {
    AsciiOne();
    hide Ascii, Items;
    ItemsLayout(vs, depth + 1, fmt);
  }

  lemma {:induction false} ItemsLayout(vs: seq<Json>, depth: nat, fmt: bool)
    requires PrintableItems(vs)
    ensures PrintItems(vs, depth, fmt) == Joined(Items(vs, depth, fmt), Ascii(if fmt then ", " else ","))
    decreases |vs|
  {
    AsciiOne();
    hide Ascii, Print;
    if |vs| > 1 {
      ItemsLayout(vs[1..], depth, fmt);
      assert Items(vs, depth, fmt)[1..] == Items(vs[1..], depth, fmt);
      assert Print(vs[0], depth, fmt) + [COMMA] + Space(fmt) == Print(vs[0], depth, fmt) + ([COMMA] + Space(fmt));
    }
  }

  /** Without format the members of an object stand between the braces, with a
      comma between them and a colon behind the name. */
  lemma {:induction false} CompactLayout(ms: seq<Member>, depth: nat)
    requires PrintableMembers(ms)
    ensures Print(Obj(ms), depth, false) == Ascii("{") + Joined(Entries(ms, depth + 1), Ascii(",")) + Ascii("}")
  {
    AsciiOne();
    TabsAre(depth);
    hide Ascii, Entries;
    EntriesLayout(ms, depth + 1);
  }

  lemma {:induction false} EntriesLayout(ms: seq<Member>, depth: nat)
    requires PrintableMembers(ms)
    ensures PrintMembers(ms, depth, false) == Joined(Entries(ms, depth), Ascii(","))
    decreases |ms|
  {
    AsciiOne();
    TabsAre(depth);
    hide Ascii, Print, Quoted;
    if ms != [] {
      EntriesLayout(ms[1..], depth);
      assert Entries(ms, depth)[1..] == Entries(ms[1..], depth);
      assert PrintMember(ms[0], depth, false) == Entry(ms[0], depth);
    }
  }

  /** Formatted, every member stands on a line of its own, one tab deeper than
      the object, and the closing brace on the last line. */
  lemma {:induction false} FormattedLayout(ms: seq<Member>, depth: nat)
    requires PrintableMembers(ms)
    ensures Print(Obj(ms), depth, true) == Ascii("{\n") + Concat(Rows(ms, depth + 1)) + Times(depth) + Ascii("}")
  {
    AsciiOne();
    TabsAre(depth);
    RowsLayout(ms, depth + 1);
    hide Ascii, Rows, Times, PrintMembers, Concat, Tabs;
    var b := Concat(Rows(ms, depth + 1));
    assert [LBRACE] + Newline(true) == Ascii("{\n");
    assert Print(Obj(ms), depth, true) == Ascii("{\n") + b + Times(depth) + [RBRACE];
  }

  lemma {:induction false} RowsLayout(ms: seq<Member>, depth: nat)
    requires PrintableMembers(ms)
    ensures PrintMembers(ms, depth, true) == Concat(Rows(ms, depth))
    decreases |ms|
  {
    AsciiOne();
    TabsAre(depth);
    hide Ascii, Print, Quoted, Times;
    if ms != [] {
      RowsLayout(ms[1..], depth);
      assert Rows(ms, depth)[1..] == Rows(ms[1..], depth);
      assert PrintMember(ms[0], depth, true) + (if |ms| > 1 then [COMMA] else []) + Newline(true)
          == Row(ms[0], depth, |ms| == 1);
    }
  }

  // ------------------------------------------ no whitespace without format

  /** Outside string literals no byte is below 33. */
  predicate Bare(s: Text) {
    s == [] || if s[0] == '"' as int then InLiteral(s[1..]) else s[0] > 32 && Bare(s[1..])
  }

  /** The same for a text that starts inside a literal. */
  predicate InLiteral(s: Text) {
    s == []
    || if s[0] == '\\' as int then |s| < 2 || InLiteral(s[2..])
       else if s[0] == '"' as int then Bare(s[1..])
       else InLiteral(s[1..])
  }

  predicate Visible(x: Text) {
    forall i :: 0 <= i < |x| ==> x[i] > 32 && x[i] != '"' as int
  }

  lemma {:induction false} BareBehind(x: Text, k: Text)
    requires Visible(x)
    ensures Bare(x + k) <==> Bare(k)
  {
    if x == [] {
      assert x + k == k;
    } else {
      BareBehind(x[1..], k);
      assert (x + k)[1..] == x[1..] + k;
    }
  }

  lemma {:induction false} EscapeInside(b: byte, k: Text)
    requires b != 0
    ensures InLiteral(EscapeByte(b) + k) <==> InLiteral(k)
  {
    var e := EscapeByte(b);
    if |e| == 1 {
      assert (e + k)[1..] == k;
    } else {
      assert (e + k)[2..] == e[2..] + k;
      if |e| == 2 {
        assert e[2..] + k == k;
      } else {
        InsideBehind(e[2..], k);
      }
    }
  }

  lemma {:induction false} InsideBehind(x: Text, k: Text)
    requires forall i :: 0 <= i < |x| ==> x[i] != '"' as int && x[i] != '\\' as int
    ensures InLiteral(x + k) <==> InLiteral(k)
  {
    if x == [] {
      assert x + k == k;
    } else {
      InsideBehind(x[1..], k);
      assert (x + k)[1..] == x[1..] + k;
    }
  }

  lemma {:induction false} EscapesInside(s: Text, k: Text)
    requires NulFree(s)
    ensures InLiteral(EscapeAll(s) + k) <==> InLiteral(k)
  {
    hide EscapeByte, InLiteral;
    if s == [] {
      assert EscapeAll(s) + k == k;
    } else {
      EscapesInside(s[1..], k);
      EscapeInside(s[0], EscapeAll(s[1..]) + k);
      Assoc(EscapeByte(s[0]), EscapeAll(s[1..]), k);
    }
  }

  lemma {:induction false} BareQuoted(s: Text, k: Text)
    requires NulFree(s)
    ensures Bare(Quoted(s) + k) <==> Bare(k)
  {
    EscapesInside(s, [QUOTE] + k);
    assert Quoted(s) + k == [QUOTE] + (EscapeAll(s) + ([QUOTE] + k));
    assert ([QUOTE] + k)[1..] == k;
    assert (Quoted(s) + k)[1..] == EscapeAll(s) + ([QUOTE] + k);
    hide EscapeAll;
  }

  lemma {:induction false} DecimalVisible(n: int)
    ensures Visible(IntText(n))
  {
    var ds := Decimal(Abs(n));
    assert forall i :: 0 <= i < |ds| ==> IsDigit(ds[i]);
  }

  /** A text printed without format has no whitespace outside its literals, and
      leaves what follows it outside. */
  lemma {:induction false} CompactIsBare(v: Json, depth: nat, k: Text)
    requires Printable(v)
    ensures Bare(Print(v, depth, false) + k) <==> Bare(k)
    decreases v, 1
  {
    hide Bare, Quoted, IntText;
    match v
    case Null => BareBehind(Parser.NULL_TEXT, k);
    case Bool(b) => BareBehind(if b then Parser.TRUE_TEXT else Parser.FALSE_TEXT, k);
    case Int(n) =>
      DecimalVisible(n);
      BareBehind(IntText(n), k);
    case Str(s) => BareQuoted(s, k);
    case Arr(items) =>
      var body := PrintItems(items, depth + 1, false);
      assert Print(v, depth, false) + k == [LBRACKET] + (body + ([RBRACKET] + k));
      BareBehind([LBRACKET], body + ([RBRACKET] + k));
      ItemsBare(items, depth + 1, [RBRACKET] + k);
      BareBehind([RBRACKET], k);
    case Obj(ms) =>
      var body := PrintMembers(ms, depth + 1, false);
      TabsAre(depth);
      assert Print(v, depth, false) + k == [LBRACE] + (body + ([RBRACE] + k));
      BareBehind([LBRACE], body + ([RBRACE] + k));
      MembersBare(ms, depth + 1, [RBRACE] + k);
      BareBehind([RBRACE], k);
  }

  lemma {:induction false} ItemsBare(items: seq<Json>, depth: nat, k: Text)
    requires PrintableItems(items)
    ensures Bare(PrintItems(items, depth, false) + k) <==> Bare(k)
    decreases items, 0
  {
    hide Bare, Print;
    if items == [] {
      assert PrintItems(items, depth, false) + k == k;
    } else if |items| == 1 {
      CompactIsBare(items[0], depth, k);
    } else {
      var more := PrintItems(items[1..], depth, false) + k;
      ItemsBare(items[1..], depth, k);
      BareBehind([COMMA], more);
      CompactIsBare(items[0], depth, [COMMA] + more);
      assert PrintItems(items, depth, false) + k == Print(items[0], depth, false) + ([COMMA] + more);
    }
  }

  lemma {:induction false} MembersBare(ms: seq<Member>, depth: nat, k: Text)
    requires PrintableMembers(ms)
    ensures Bare(PrintMembers(ms, depth, false) + k) <==> Bare(k)
    decreases ms, 0
  {
    hide Bare, Print, Quoted;
    if ms == [] {
      assert PrintMembers(ms, depth, false) + k == k;
    } else {
      var sep: Text := if |ms| > 1 then [COMMA] else [];
      var more := PrintMembers(ms[1..], depth, false) + k;
      var v := Print(ms[0].value, depth, false);
      TabsAre(depth);
      MembersBare(ms[1..], depth, k);
      BareBehind(sep, more);
      CompactIsBare(ms[0].value, depth, sep + more);
      BareBehind([COLON], v + (sep + more));
      BareQuoted(ms[0].key, [COLON] + (v + (sep + more)));
      assert PrintMembers(ms, depth, false) + k == Quoted(ms[0].key) + ([COLON] + (v + (sep + more)));
    }
  }
}

/** `print_value` and the functions below it, as functions from a value to its
    text. */
module Printer {
  import opened Bytes
  import opened Numbers
  import opened Strings
  import opened JsonValue
  import opened Parser

  /** `n` tabs when formatting. */
  function Tabs(fmt: bool, n: nat): Text {
    if !fmt || n == 0 then [] else [TAB] + Tabs(fmt, n - 1)
  }

  lemma {:induction false} TabsSnoc(fmt: bool, n: nat)
    ensures Tabs(fmt, n + 1) == Tabs(fmt, n) + OneTab(fmt)
  {
    if fmt && n > 0 {
      TabsSnoc(fmt, n - 1);
    }
  }

  function Newline(fmt: bool): Text { if fmt then [NEWLINE] else [] }

  function Space(fmt: bool): Text { if fmt then [SPACE] else [] }

  function OneTab(fmt: bool): Text { if fmt then [TAB] else [] }

  predicate PrintableItems(items: seq<Json>) {
    forall i :: 0 <= i < |items| ==> Printable(items[i])
  }

  predicate PrintableMembers(ms: seq<Member>) {
    forall i :: 0 <= i < |ms| ==> NulFree(ms[i].key) && Printable(ms[i].value)
  }

  function Print(v: Json, depth: nat, fmt: bool): Text
    requires Printable(v)
    decreases v
  {
    match v
    case Null => NULL_TEXT
    case Bool(b) => if b then TRUE_TEXT else FALSE_TEXT
    case Int(n) => IntText(n)
    case Str(s) => Quoted(s)
    case Arr(items) => [LBRACKET] + PrintItems(items, depth + 1, fmt) + [RBRACKET]
    case Obj(ms) =>
      [LBRACE] + Newline(fmt) + PrintMembers(ms, depth + 1, fmt) + Tabs(fmt, depth) + [RBRACE]
  }

  function PrintItems(items: seq<Json>, depth: nat, fmt: bool): Text
    requires PrintableItems(items)
    decreases items
  {
    if items == [] then []
    else if |items| == 1 then Print(items[0], depth, fmt)
    else Print(items[0], depth, fmt) + [COMMA] + Space(fmt) + PrintItems(items[1..], depth, fmt)
  }

  function PrintMember(m: Member, depth: nat, fmt: bool): Text
    requires NulFree(m.key) && Printable(m.value)
    decreases m
  {
    Tabs(fmt, depth) + Quoted(m.key) + [COLON] + OneTab(fmt) + Print(m.value, depth, fmt)
  }

  function PrintMembers(ms: seq<Member>, depth: nat, fmt: bool): Text
    requires PrintableMembers(ms)
    decreases ms
  {
    if ms == [] then []
    else
      PrintMember(ms[0], depth, fmt) + (if |ms| > 1 then [COMMA] else []) + Newline(fmt)
      + PrintMembers(ms[1..], depth, fmt)
  }
}

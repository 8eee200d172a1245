/** Printing is injective, and printing what was parsed is a normal form. */
module NormalForm {
  import opened Bytes
  import opened Numbers
  import opened Doubles
  import opened NumberText
  import opened ParsedResult
  import opened Strings
  import opened JsonValue
  import opened Parser
  import opened Grammar
  import opened Printer
  import opened RoundTrip

  // --------------------------------------------------- parsed strings

  /** Every string and key is a C string. */
  predicate CStrings(v: Json) {
    match v
    case Str(s) => NulFree(s)
    case Arr(items) => CItems(items)
    case Obj(ms) => CMembers(ms)
    case _ => true
  }

  predicate CItems(items: seq<Json>) {
    items == [] || (CStrings(items[0]) && CItems(items[1..]))
  }

  predicate CMembers(ms: seq<Member>) {
    ms == [] || (NulFree(ms[0].key) && CStrings(ms[0].value) && CMembers(ms[1..]))
  }

  predicate Clean(r: Parsed<Json>) { r.Ok? ==> CStrings(r.value) }

  predicate CleanItems(r: Parsed<seq<Json>>) { r.Ok? ==> CItems(r.value) }

  predicate CleanMember(r: Parsed<Member>) { r.Ok? ==> NulFree(r.value.key) && CStrings(r.value.value) }

  predicate CleanMembers(r: Parsed<seq<Member>>) { r.Ok? ==> CMembers(r.value) }

  lemma {:induction false} ParsedValueClean(s: Text)
    ensures Clean(ParseValue(s))
    decreases |s|, 1
  {
    Dispatch(s);
    if Peek(s) == LBRACKET {
      ParsedItemsClean(Skip(s[1..]));
      ArrayClean(s);
    } else if Peek(s) == LBRACE {
      ParsedMembersClean(Skip(s[1..]));
      ObjectClean(s);
    } else {
      ScalarClean(s);
    }
  }

  lemma {:induction false} ScalarClean(s: Text)
    requires Peek(s) != LBRACKET && Peek(s) != LBRACE
    ensures Clean(ParseValue(s))
  {
  }

  lemma {:induction false} ArrayClean(s: Text)
    requires Peek(s) == LBRACKET && CleanItems(ParseItems(Skip(s[1..])))
    ensures Clean(ParseArray(s))
  {
    hide ParseItems, Skip;
  }

  lemma {:induction false} ObjectClean(s: Text)
    requires Peek(s) == LBRACE && CleanMembers(ParseMembers(Skip(s[1..])))
    ensures Clean(ParseObject(s))
  {
    hide ParseMembers, Skip;
  }

  lemma {:induction false} ParsedItemsClean(s: Text)
    ensures CleanItems(ParseItems(s))
    decreases |s|, 2
  {
    var p := ParseValue(Skip(s));
    ParsedValueClean(Skip(s));
    if p.Ok? {
      ParsedMoreItemsClean(p.value, Skip(p.rest));
    }
  }

  lemma {:induction false} ParsedMoreItemsClean(x: Json, v: Text)
    requires CStrings(x)
    ensures CleanItems(MoreItems(x, v))
    decreases |v|, 3
  {
    if Peek(v) == COMMA {
      ParsedItemsClean(v[1..]);
      var r := ParseItems(v[1..]);
      if r.Ok? {
        assert ([x] + r.value)[1..] == r.value;
      }
    } else {
      assert [x][1..] == [];
    }
  }

  lemma {:induction false} ParsedMembersClean(s: Text)
    ensures CleanMembers(ParseMembers(s))
    decreases |s|, 2
  {
    ParsedMemberClean(s);
    var p := ParseMember(s);
    if p.Ok? {
      ParsedMoreMembersClean(p.value, Skip(p.rest));
    }
  }

  lemma {:induction false} ParsedMemberClean(s: Text)
    ensures CleanMember(ParseMember(s))
    decreases |s|, 1
  {
    var p := ParseString(Skip(s));
    if p.Ok? {
      ParsedMemberValueClean(p.value, Skip(p.rest));
    }
  }

  lemma {:induction false} ParsedMemberValueClean(key: Text, v: Text)
    requires NulFree(key)
    ensures CleanMember(MemberValue(key, v))
    decreases |v|, 3
  {
    if Peek(v) == COLON {
      ParsedValueClean(Skip(v[1..]));
    }
  }

  lemma {:induction false} ParsedMoreMembersClean(m: Member, v: Text)
    requires NulFree(m.key) && CStrings(m.value)
    ensures CleanMembers(MoreMembers(m, v))
    decreases |v|, 3
  {
    if Peek(v) == COMMA {
      ParsedMembersClean(v[1..]);
      var r := ParseMembers(v[1..]);
      if r.Ok? {
        assert ([m] + r.value)[1..] == r.value;
      }
    } else {
      assert [m][1..] == [];
    }
  }

  lemma {:induction false} CleanIsPrintable(v: Json)
    requires CStrings(v) && DoubleFree(v)
    ensures Printable(v)
    decreases v
  {
    match v
    case Arr(items) => CleanItemsPrintable(items);
    case Obj(ms) => CleanMembersPrintable(ms);
    case _ =>
  }

  lemma {:induction false} CleanItemsPrintable(items: seq<Json>)
    requires CItems(items)
    requires forall i :: 0 <= i < |items| ==> DoubleFree(items[i])
    ensures PrintableItems(items)
    decreases items
  {
    if items != [] {
      CleanIsPrintable(items[0]);
      CleanItemsPrintable(items[1..]);
      assert items == [items[0]] + items[1..];
    }
  }

  lemma {:induction false} CleanMembersPrintable(ms: seq<Member>)
    requires CMembers(ms)
    requires forall i :: 0 <= i < |ms| ==> DoubleFree(ms[i].value)
    ensures PrintableMembers(ms)
    decreases ms
  {
    if ms != [] {
      CleanIsPrintable(ms[0].value);
      CleanMembersPrintable(ms[1..]);
      assert ms == [ms[0]] + ms[1..];
    }
  }

  /** A parsed string is a C string, so a double-free parsed value can be
      printed. */
  lemma {:induction false} ParsedIsPrintable(s: Text)
    requires ParseValue(s).Ok? && DoubleFree(ParseValue(s).value)
    ensures Printable(ParseValue(s).value)
  {
    ParsedValueClean(s);
    CleanIsPrintable(ParseValue(s).value);
  }

  /** Printing a parsed double-free text gives a normal form: it parses to the
      same value, and parsing and printing it again changes nothing. */
  lemma {:induction false} PrintOfParseIsNormal(s: Text, fmt: bool)
    requires Parse(s).Ok? && DoubleFree(Parse(s).value) && AllExact(Parse(s).value)
    ensures Printable(Parse(s).value)
    ensures var v := Parse(s).value;
      Parse(Print(v, 0, fmt)) == Ok(v, [])
  {
    ParsedIsPrintable(Skip(s));
    ParseOfText(Parse(s).value, fmt);
  }

  // --------------------------------------------------------- injectivity

  lemma {:induction false} StripPrefix(a: Text, x: Text, y: Text)
    requires a + x == a + y
    ensures x == y
  {
    assert (a + x)[|a|..] == x && (a + y)[|a|..] == y;
  }

  lemma {:induction false} IntTextInjective(a: int, b: int, k: Text, k2: Text)
    requires Stops(k) && Stops(k2)
    requires IntText(a) + k == IntText(b) + k2
    ensures a == b && k == k2
  {
    ScanOfPrinted(a, k);
    ScanOfPrinted(b, k2);
    var la, lb := LitScan(PrintedNum(a), k), LitScan(PrintedNum(b), k2);
    assert la == lb;
    ZeroDigits(a);
    ZeroDigits(b);
  }

  /** The digits the scan keeps determine the magnitude. */
  lemma {:induction false} ZeroDigits(a: int)
    ensures Value(LitScan(PrintedNum(a), []).ints) == Abs(a)
  {
    var ds := Decimal(Abs(a));
    if ds[0] == ZERO {
      assert ds[..0] == [];
    }
  }

  /** The first byte of a printed value tells its kind. */
  predicate HeadMatches(v: Json, h: byte) {
    match v
    case Null => h == 110
    case Bool(b) => h == if b then 116 else 102
    case Int(_) => h == MINUS || IsDigit(h)
    case Dbl(_, _) => true
    case Str(_) => h == QUOTE
    case Arr(_) => h == LBRACKET
    case Obj(_) => h == LBRACE
  }

  lemma {:induction false} HeadOf(v: Json, depth: nat, fmt: bool, k: Text)
    requires Printable(v)
    ensures HeadMatches(v, Peek(Emit(PrintedDeriv(v, depth, fmt), k)))
  {
  }

  lemma {:induction false} LiteralInjective(s: Text, t: Text, k: Text, k2: Text)
    requires NulFree(s) && NulFree(t)
    requires [QUOTE] + BodyText(PrintedUnits(s), [QUOTE] + k)
          == [QUOTE] + BodyText(PrintedUnits(t), [QUOTE] + k2)
    ensures s == t && k == k2
  {
    ParseLiteral(PrintedUnits(s), k);
    ParseLiteral(PrintedUnits(t), k2);
    DecodeOfPrinted(s);
    DecodeOfPrinted(t);
  }

  /** Two printed values followed by texts that do not continue a number are
      equal only when the values and the texts are. */
  lemma {:induction false} EmitInjective(a: Json, b: Json, depth: nat, fmt: bool, k: Text, k2: Text)
    requires Printable(a) && Printable(b) && Stops(k) && Stops(k2)
    requires Emit(PrintedDeriv(a, depth, fmt), k) == Emit(PrintedDeriv(b, depth, fmt), k2)
    ensures a == b && k == k2
    decreases a
  {
    HeadOf(a, depth, fmt, k);
    HeadOf(b, depth, fmt, k2);
    match a
    case Null => StripPrefix(NULL_TEXT, k, k2);
    case Bool(x) => StripPrefix(if x then TRUE_TEXT else FALSE_TEXT, k, k2);
    case Int(n) =>
      IntTextIsLiteral(n, k);
      IntTextIsLiteral(b.v, k2);
      IntTextInjective(n, b.v, k, k2);
    case Str(s) => LiteralInjective(s, b.s, k, k2);
    case Arr(items) => ArraysInjective(items, b.items, depth, fmt, k, k2);
    case Obj(ms) => ObjectsInjective(ms, b.members, depth, fmt, k, k2);
  }

  lemma {:induction false} ArraysInjective(xs: seq<Json>, ys: seq<Json>, depth: nat, fmt: bool, k: Text, k2: Text)
    requires PrintableItems(xs) && PrintableItems(ys)
    requires Emit(PrintedDeriv(Arr(xs), depth, fmt), k) == Emit(PrintedDeriv(Arr(ys), depth, fmt), k2)
    ensures xs == ys && k == k2
    decreases xs, 1
  {
    var p, q := ArrayBody(xs, depth, fmt, k), ArrayBody(ys, depth, fmt, k2);
    ArrayEmits(xs, depth, fmt, k);
    ArrayEmits(ys, depth, fmt, k2);
    StripPrefix([LBRACKET], p, q);
    ArrayBodyHead(xs, depth, fmt, k);
    ArrayBodyHead(ys, depth, fmt, k2);
    if xs == [] {
      StripPrefix([RBRACKET], k, k2);
    } else {
      ItemsInjective(xs, ys, depth + 1, fmt, true, k, k2);
    }
  }

  function ArrayBody(xs: seq<Json>, depth: nat, fmt: bool, k: Text): Text
    requires PrintableItems(xs)
  {
    EmitItems(PrintedItems(xs, depth + 1, fmt, true), [RBRACKET] + k)
  }

  lemma {:induction false} ArrayEmits(xs: seq<Json>, depth: nat, fmt: bool, k: Text)
    requires PrintableItems(xs)
    ensures Emit(PrintedDeriv(Arr(xs), depth, fmt), k) == [LBRACKET] + ArrayBody(xs, depth, fmt, k)
  {
    assert [] + ([RBRACKET] + k) == [RBRACKET] + k;
  }

  lemma {:induction false} ArrayBodyHead(xs: seq<Json>, depth: nat, fmt: bool, k: Text)
    requires PrintableItems(xs)
    ensures Peek(ArrayBody(xs, depth, fmt, k)) == RBRACKET <==> xs == []
  {
    if xs != [] {
      ItemsStep(xs, depth + 1, fmt, true, [RBRACKET] + k);
      HeadOf(xs[0], depth + 1, fmt, ItemsTail(xs, depth + 1, fmt, [RBRACKET] + k));
    }
  }

  /** What follows the first item. */
  function ItemsTail(xs: seq<Json>, depth: nat, fmt: bool, k: Text): Text
    requires PrintableItems(xs) && xs != []
  {
    if |xs| == 1 then k else [COMMA] + EmitItems(PrintedItems(xs[1..], depth, fmt, false), k)
  }

  lemma {:induction false} ItemsStep(xs: seq<Json>, depth: nat, fmt: bool, first: bool, k: Text)
    requires PrintableItems(xs) && xs != []
    ensures var e := Emit(PrintedDeriv(xs[0], depth, fmt), ItemsTail(xs, depth, fmt, k));
      EmitItems(PrintedItems(xs, depth, fmt, first), k) == if first then e else Space(fmt) + e
  {
    var ds := PrintedItems(xs, depth, fmt, first);
    assert ds[1..] == PrintedItems(xs[1..], depth, fmt, false);
    var t := ItemsTail(xs, depth, fmt, k);
    assert [] + t == t;
    var e := Emit(PrintedDeriv(xs[0], depth, fmt), t);
    assert [] + e == e;
  }

  lemma {:induction false} ItemsInjective(xs: seq<Json>, ys: seq<Json>, depth: nat, fmt: bool, first: bool,
                                          k: Text, k2: Text)
    requires PrintableItems(xs) && PrintableItems(ys) && xs != [] && ys != []
    requires EmitItems(PrintedItems(xs, depth, fmt, first), [RBRACKET] + k)
          == EmitItems(PrintedItems(ys, depth, fmt, first), [RBRACKET] + k2)
    ensures xs == ys && k == k2
    decreases xs, 0
  {
    var c, c2 := [RBRACKET] + k, [RBRACKET] + k2;
    var t, t2 := ItemsTail(xs, depth, fmt, c), ItemsTail(ys, depth, fmt, c2);
    ItemsStep(xs, depth, fmt, first, c);
    ItemsStep(ys, depth, fmt, first, c2);
    if !first {
      StripPrefix(Space(fmt), Emit(PrintedDeriv(xs[0], depth, fmt), t), Emit(PrintedDeriv(ys[0], depth, fmt), t2));
    }
    EmitInjective(xs[0], ys[0], depth, fmt, t, t2);
    if |xs| == 1 {
      assert Peek(t) == RBRACKET;
      StripPrefix([RBRACKET], k, k2);
    } else {
      assert Peek(t) == COMMA;
      var r, r2 := EmitItems(PrintedItems(xs[1..], depth, fmt, false), c),
                   EmitItems(PrintedItems(ys[1..], depth, fmt, false), c2);
      StripPrefix([COMMA], r, r2);
      ItemsInjective(xs[1..], ys[1..], depth, fmt, false, k, k2);
    }
    assert xs == [xs[0]] + xs[1..] && ys == [ys[0]] + ys[1..];
  }

  lemma {:induction false} ObjectsInjective(xs: seq<Member>, ys: seq<Member>, depth: nat, fmt: bool, k: Text, k2: Text)
    requires PrintableMembers(xs) && PrintableMembers(ys)
    requires Emit(PrintedDeriv(Obj(xs), depth, fmt), k) == Emit(PrintedDeriv(Obj(ys), depth, fmt), k2)
    ensures xs == ys && k == k2
    decreases xs, 2
  {
    var w := Newline(fmt) + Tabs(fmt, depth);
    var r := ObjectSplit(xs, depth, fmt, k);
    var r2 := ObjectSplit(ys, depth, fmt, k2);
    StripPrefix([LBRACE], w + r, w + r2);
    StripPrefix(w, r, r2);
    if xs == [] {
      StripPrefix([RBRACE], k, k2);
    } else {
      MembersInjective(xs, ys, depth + 1, fmt, k, k2);
    }
  }

  /** A printed object opens with the same layout bytes, members or none. */
  lemma {:induction false} ObjectSplit(ms: seq<Member>, depth: nat, fmt: bool, k: Text) returns (r: Text)
    requires PrintableMembers(ms)
    ensures Emit(PrintedDeriv(Obj(ms), depth, fmt), k) == [LBRACE] + (Newline(fmt) + Tabs(fmt, depth) + r)
    ensures if ms == [] then r == [RBRACE] + k
            else Peek(r) != RBRACE && EmitMembers(PrintedMembers(ms, depth + 1, fmt), [RBRACE] + k)
                                   == Newline(fmt) + Tabs(fmt, depth) + r
  {
    var ds := PrintedMembers(ms, depth + 1, fmt);
    assert PrintedDeriv(Obj(ms), depth, fmt) == DObj(Newline(fmt) + Tabs(fmt, depth), ds);
    if ms == [] {
      r := [RBRACE] + k;
    } else {
      r := MembersOpen(ms, depth, fmt, [RBRACE] + k);
    }
  }

  lemma {:induction false} MembersOpen(ms: seq<Member>, depth: nat, fmt: bool, k: Text) returns (r: Text)
    requires PrintableMembers(ms) && ms != []
    ensures Peek(r) != RBRACE
    ensures EmitMembers(PrintedMembers(ms, depth + 1, fmt), k) == Newline(fmt) + Tabs(fmt, depth) + r
  {
    MembersStep(ms, depth + 1, fmt, k);
    TabsSnoc(fmt, depth);
    var lit := MemberLiteral(ms, depth + 1, fmt, k);
    r := OneTab(fmt) + lit;
    Regroup4(Newline(fmt), Tabs(fmt, depth), OneTab(fmt), lit);
  }

  lemma {:induction false} Regroup4(a: Text, b: Text, c: Text, d: Text)
    ensures a + (b + c) + d == a + b + (c + d)
  {
  }

  /** What follows the first member's value. */
  function MembersTail(ms: seq<Member>, depth: nat, fmt: bool, k: Text): Text
    requires PrintableMembers(ms) && ms != [] && depth > 0
  {
    if |ms| == 1 then Newline(fmt) + Tabs(fmt, depth - 1) + k
    else [COMMA] + EmitMembers(PrintedMembers(ms[1..], depth, fmt), k)
  }

  function MemberRest(ms: seq<Member>, depth: nat, fmt: bool, k: Text): Text
    requires PrintableMembers(ms) && ms != [] && depth > 0
  {
    [COLON] + (OneTab(fmt) + Emit(PrintedDeriv(ms[0].value, depth, fmt), MembersTail(ms, depth, fmt, k)))
  }

  /** The first member from its key on. */
  function MemberLiteral(ms: seq<Member>, depth: nat, fmt: bool, k: Text): Text
    requires PrintableMembers(ms) && ms != [] && depth > 0
  {
    [QUOTE] + BodyText(PrintedUnits(ms[0].key), [QUOTE] + MemberRest(ms, depth, fmt, k))
  }

  lemma {:induction false} MembersStep(ms: seq<Member>, depth: nat, fmt: bool, k: Text)
    requires PrintableMembers(ms) && ms != [] && depth > 0
    ensures EmitMembers(PrintedMembers(ms, depth, fmt), k)
         == Newline(fmt) + Tabs(fmt, depth) + MemberLiteral(ms, depth, fmt, k)
  {
    var ds := PrintedMembers(ms, depth, fmt);
    assert ds[1..] == PrintedMembers(ms[1..], depth, fmt);
    var c := [COMMA] + EmitMembers(ds[1..], k);
    assert [] + c == c;
    var r := MemberRest(ms, depth, fmt, k);
    assert [] + r == r;
  }

  lemma {:induction false} MembersInjective(xs: seq<Member>, ys: seq<Member>, depth: nat, fmt: bool, k: Text, k2: Text)
    requires PrintableMembers(xs) && PrintableMembers(ys) && xs != [] && ys != [] && depth > 0
    requires EmitMembers(PrintedMembers(xs, depth, fmt), [RBRACE] + k)
          == EmitMembers(PrintedMembers(ys, depth, fmt), [RBRACE] + k2)
    ensures xs == ys && k == k2
    decreases xs, 1
  {
    hide EmitMembers, PrintedMembers, MemberRest, Tabs, Newline;
    var c, c2 := [RBRACE] + k, [RBRACE] + k2;
    MembersStep(xs, depth, fmt, c);
    MembersStep(ys, depth, fmt, c2);
    StripPrefix(Newline(fmt) + Tabs(fmt, depth), MemberLiteral(xs, depth, fmt, c), MemberLiteral(ys, depth, fmt, c2));
    LiteralInjective(xs[0].key, ys[0].key, MemberRest(xs, depth, fmt, c), MemberRest(ys, depth, fmt, c2));
    FirstValueInjective(xs, ys, depth, fmt, c, c2);
    if |xs| == 1 {
      TailsInjective(depth, fmt, k, k2);
    } else {
      var r, r2 := EmitMembers(PrintedMembers(xs[1..], depth, fmt), c),
                   EmitMembers(PrintedMembers(ys[1..], depth, fmt), c2);
      StripPrefix([COMMA], r, r2);
      MembersInjective(xs[1..], ys[1..], depth, fmt, k, k2);
    }
    assert xs == [xs[0]] + xs[1..] && ys == [ys[0]] + ys[1..];
  }

  lemma {:induction false} FirstValueInjective(xs: seq<Member>, ys: seq<Member>, depth: nat, fmt: bool, c: Text,
                                               c2: Text)
    requires PrintableMembers(xs) && PrintableMembers(ys) && xs != [] && ys != [] && depth > 0
    requires Peek(c) == RBRACE && Peek(c2) == RBRACE
    requires MemberRest(xs, depth, fmt, c) == MemberRest(ys, depth, fmt, c2)
    ensures xs[0].value == ys[0].value
    ensures MembersTail(xs, depth, fmt, c) == MembersTail(ys, depth, fmt, c2)
    ensures |xs| == 1 <==> |ys| == 1
    decreases xs, 0
  {
    var t, t2 := MembersTail(xs, depth, fmt, c), MembersTail(ys, depth, fmt, c2);
    var e, e2 := Emit(PrintedDeriv(xs[0].value, depth, fmt), t), Emit(PrintedDeriv(ys[0].value, depth, fmt), t2);
    StripPrefix([COLON], OneTab(fmt) + e, OneTab(fmt) + e2);
    StripPrefix(OneTab(fmt), e, e2);
    TailHead(xs, depth, fmt, c);
    TailHead(ys, depth, fmt, c2);
    EmitInjective(xs[0].value, ys[0].value, depth, fmt, t, t2);
  }

  lemma {:induction false} TailHead(ms: seq<Member>, depth: nat, fmt: bool, k: Text)
    requires PrintableMembers(ms) && ms != [] && depth > 0 && Peek(k) == RBRACE
    ensures Stops(MembersTail(ms, depth, fmt, k))
    ensures Peek(MembersTail(ms, depth, fmt, k)) == COMMA <==> |ms| > 1
  {
  }

  lemma {:induction false} TailsInjective(depth: nat, fmt: bool, k: Text, k2: Text)
    requires depth > 0
    requires Newline(fmt) + Tabs(fmt, depth - 1) + ([RBRACE] + k)
          == Newline(fmt) + Tabs(fmt, depth - 1) + ([RBRACE] + k2)
    ensures k == k2
  {
    StripPrefix(Newline(fmt) + Tabs(fmt, depth - 1), [RBRACE] + k, [RBRACE] + k2);
    StripPrefix([RBRACE], k, k2);
  }

  /** Two values print the same, in either format, exactly when they are the
      same value. */
  lemma {:induction false} PrintInjective(a: Json, b: Json, depth: nat, fmt: bool)
    requires Printable(a) && Printable(b)
    ensures Print(a, depth, fmt) == Print(b, depth, fmt) <==> a == b
  {
    if Print(a, depth, fmt) == Print(b, depth, fmt) {
      PrintIsEmit(a, depth, fmt, []);
      PrintIsEmit(b, depth, fmt, []);
      EmitInjective(a, b, depth, fmt, [], []);
    }
  }

  // --------------------------------------------------------- idempotence

  lemma {:induction false} RereadIsPrintable(v: Json)
    requires Printable(v)
    ensures Printable(RereadAll(v))
    decreases v
  {
    match v
    case Arr(items) =>
      forall i | 0 <= i < |items| ensures Printable(RereadAll(items[i])) { RereadIsPrintable(items[i]); }
    case Obj(ms) =>
      forall i | 0 <= i < |ms| ensures Printable(RereadAll(ms[i].value)) { RereadIsPrintable(ms[i].value); }
    case _ =>
  }

  /** The text printed for an accepted double-free text is left alone by
      another parse and print exactly when every integer in it survives, as
      far as they are within reach. */
  lemma {:induction false} PrintAfterParseIdempotent(s: Text, fmt: bool)
    requires Parse(s).Ok? && DoubleFree(Parse(s).value) && AllWithinReach(Parse(s).value)
    ensures var v := Parse(s).value;
      && Printable(v) && Parse(Print(v, 0, fmt)).Ok? && Printable(Parse(Print(v, 0, fmt)).value)
      && (Print(Parse(Print(v, 0, fmt)).value, 0, fmt) == Print(v, 0, fmt) <==> AllExact(v))
  {
    var v := Parse(s).value;
    ParsedIsPrintable(Skip(s));
    ParseOfText(v, fmt);
    RereadIsPrintable(v);
    PrintInjective(RereadAll(v), v, 0, fmt);
    RereadAllIsExact(v);
  }

  /** The text 18014398509481995 is read as 2^54 + 12, whose own text is not
      left alone. */
  lemma {:induction false} NotIdempotent(fmt: bool)
    ensures var s := IntText(TWO54 + 11);
      && Parse(s) == Ok(Int(TWO54 + 12), [])
      && Parse(Print(Int(TWO54 + 12), 0, fmt)) != Ok(Int(TWO54 + 12), [])
  {
    NextDouble();
    assert Print(Int(TWO54 + 11), 0, fmt) == IntText(TWO54 + 11);
    assert Print(Int(TWO54 + 12), 0, fmt) == IntText(TWO54 + 12);
    hide Reread, IntText, Print;
    ParseOfText(Int(TWO54 + 11), fmt);
    ParseOfText(Int(TWO54 + 12), fmt);
    DoubleIsLost();
  }

  lemma {:induction false} SmallIsRead(n: nat)
    requires n < TWO53
    ensures Accumulate(Decimal(n)) == n
  {
    AccumulateIsExact(Decimal(n));
    SurvivesIs(n);
  }

  lemma {:induction false} NextDouble()
    ensures Reread(TWO54 + 11) == TWO54 + 12
  {
    hide Decimal, Accumulate, AccumulateDigit, Stored;
    var p: nat := (TWO54 + 11) / 10;
    DecimalTurn(TWO54 + 11);
    SmallIsRead(p);
    LastTurn(p);
    StoredInRange(false, TWO54 + 12);
  }

  lemma {:induction false} LastTurn(p: nat)
    requires p == (TWO54 + 11) / 10
    ensures AccumulateDigit(p, 53) == TWO54 + 12
  {
    TurnIs(p, 53);
    hide AccumulateDigit;
  }
}

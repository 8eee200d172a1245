/** The JSON grammar as derivation trees, and the proof that the parser accepts
    everything the grammar derives; the derivations of RFC 8259 are among
    them. */
module Grammar {
  import opened Bytes
  import opened Numbers
  import opened NumberText
  import opened ParsedResult
  import opened Strings
  import opened JsonValue
  import opened Parser

  /** A string literal behind its opening quote: well-formed units and the
      closing quote, or a body that cannot be cut into units but that
      `parse_string` reads as `text` in the place where it stands. Whether it
      does can depend on what follows, so `Reads` looks there. */
  datatype Literal = Units(us: seq<Unit>) | Odd(body: Text, text: Text)
  {
    predicate Valid() { Units? ==> AllValid(us) }

    function Spelling(k: Text): Text {
      [QUOTE] + if Units? then BodyText(us, [QUOTE] + k) else body + k
    }

    function Value(): Text
      requires Valid()
    {
      if Units? then Decode(us) else text
    }

    predicate Reads(k: Text) {
      Odd? ==> LexBody(body + k).BadEscape? && ParseString(Spelling(k)) == Ok(text, k)
    }
  }

  /** A derivation of `value`, keeping the whitespace and the spelling of
      strings and numbers. `blank` is the whitespace of an empty array or
      object. */
  datatype Deriv =
    | DNull
    | DBool(b: bool)
    | DNum(lit: NumLit)
    | DStr(literal: Literal)
    | DArr(blank: Text, items: seq<DItem>)
    | DObj(blank: Text, members: seq<DMember>)

  datatype DItem = DItem(before: Text, d: Deriv, after: Text)

  datatype DMember =
    DMember(before: Text, key: Literal, beforeColon: Text, afterColon: Text, d: Deriv, after: Text)
  {
    predicate RfcFramed() {
      && RfcBlank(before) && RfcLiteral(key) && RfcBlank(beforeColon)
      && RfcBlank(afterColon) && RfcBlank(after)
    }

    predicate Framed() {
      && AllBlank(before) && key.Valid() && AllBlank(beforeColon)
      && AllBlank(afterColon) && AllBlank(after)
    }
  }

  /** Well-formed derivations. Wider than RFC 8259 where the parser is: any byte
      from 1 to 32 is whitespace; inside a string any byte but the NUL, the
      quote and the backslash stands for itself, and a backslash takes any
      character; and numbers may be lenient. */
  predicate Valid(d: Deriv) {
    match d
    case DNull => true
    case DBool(_) => true
    case DNum(l) => l.Lenient()
    case DStr(l) => l.Valid()
    case DArr(w, items) => AllBlank(w) && ValidItems(items)
    case DObj(w, ms) => AllBlank(w) && ValidMembers(ms)
  }

  predicate ValidItems(items: seq<DItem>) {
    items == [] ||
    (AllBlank(items[0].before) && Valid(items[0].d) && AllBlank(items[0].after)
     && ValidItems(items[1..]))
  }

  predicate ValidMembers(ms: seq<DMember>) {
    ms == [] || (ms[0].Framed() && Valid(ms[0].d) && ValidMembers(ms[1..]))
  }

  // ------------------------------------------------- the text of a derivation

  /** The text `d` derives, followed by `k`. */
  function Emit(d: Deriv, k: Text): Text {
    match d
    case DNull => NULL_TEXT + k
    case DBool(b) => (if b then TRUE_TEXT else FALSE_TEXT) + k
    case DNum(l) => NumText(l, k)
    case DStr(l) => l.Spelling(k)
    case DArr(w, items) =>
      [LBRACKET] + if items == [] then w + ([RBRACKET] + k) else EmitItems(items, [RBRACKET] + k)
    case DObj(w, ms) =>
      [LBRACE] + if ms == [] then w + ([RBRACE] + k) else EmitMembers(ms, [RBRACE] + k)
  }

  function EmitItems(items: seq<DItem>, k: Text): Text {
    if items == [] then k
    else
      items[0].before + Emit(items[0].d,
        items[0].after + if |items| == 1 then k else [COMMA] + EmitItems(items[1..], k))
  }

  function EmitMembers(ms: seq<DMember>, k: Text): Text {
    if ms == [] then k
    else EmitMember(ms[0], if |ms| == 1 then k else [COMMA] + EmitMembers(ms[1..], k))
  }

  function EmitMember(m: DMember, k: Text): Text {
    m.before + m.key.Spelling(m.beforeColon + ([COLON] + (m.afterColon + Emit(m.d, m.after + k))))
  }

  // ---------------------------------------------- the value of a derivation

  function Meaning(d: Deriv): Json
    requires Valid(d)
  {
    match d
    case DNull => Null
    case DBool(b) => Bool(b)
    case DNum(l) => NumberValue(LitScan(l, []))
    case DStr(l) => Str(l.Value())
    case DArr(_, items) => Arr(ItemMeanings(items))
    case DObj(_, ms) => Obj(MemberMeanings(ms))
  }

  function ItemMeanings(items: seq<DItem>): seq<Json>
    requires ValidItems(items)
  {
    if items == [] then [] else [Meaning(items[0].d)] + ItemMeanings(items[1..])
  }

  function MemberMeanings(ms: seq<DMember>): seq<Member>
    requires ValidMembers(ms)
  {
    if ms == [] then []
    else [Member(ms[0].key.Value(), Meaning(ms[0].d))] + MemberMeanings(ms[1..])
  }

  // ----------------------------------------- where the odd literals stand

  /** Every literal of the derivation that is no sequence of units is read as
      its text, in the place where it stands in front of `k`. */
  predicate Reads(d: Deriv, k: Text) {
    match d
    case DStr(l) => l.Reads(k)
    case DArr(_, items) => ReadsItems(items, [RBRACKET] + k)
    case DObj(_, ms) => ReadsMembers(ms, [RBRACE] + k)
    case _ => true
  }

  predicate ReadsItems(items: seq<DItem>, k: Text) {
    items == [] ||
    (Reads(items[0].d, items[0].after + if |items| == 1 then k else [COMMA] + EmitItems(items[1..], k))
     && ReadsItems(items[1..], k))
  }

  predicate ReadsMembers(ms: seq<DMember>, k: Text) {
    ms == [] ||
    (ReadsMember(ms[0], if |ms| == 1 then k else [COMMA] + EmitMembers(ms[1..], k)) && ReadsMembers(ms[1..], k))
  }

  predicate ReadsMember(m: DMember, k: Text) {
    && m.key.Reads(m.beforeColon + ([COLON] + (m.afterColon + Emit(m.d, m.after + k))))
    && Reads(m.d, m.after + k)
  }

  lemma {:induction false} LiteralParses(l: Literal, k: Text)
    requires l.Valid() && l.Reads(k)
    ensures ParseString(l.Spelling(k)) == Ok(l.Value(), k)
  {
    if l.Units? {
      ParseLiteral(l.us, k);
    }
  }

  // -------------------------------------------------------- completeness

  /** A value starts neither with whitespace nor with a closing bracket. */
  lemma {:induction false} EmitHead(d: Deriv, k: Text)
    requires Valid(d)
    ensures var h := Peek(Emit(d, k)); !IsBlank(h) && h != RBRACKET && h != RBRACE && h != 0
  {
  }

  predicate MayFollow(d: Deriv, k: Text) {
    d.DNum? ==> Ends(d.lit, k)
  }

  /** Whatever the derivation, the parser returns its value and stops exactly
      where its text ends. */
  lemma {:induction false} ParseComplete(d: Deriv, k: Text)
    requires Valid(d) && MayFollow(d, k) && Reads(d, k)
    ensures ParseValue(Emit(d, k)) == Ok(Meaning(d), k)
    decreases d, 1
  {
    match d
    case DNull => ParseKeyword(k);
    case DBool(b) => ParseKeyword(k);
    case DNum(l) => ParseNumberLit(l, k);
    case DStr(l) =>
      Dispatch(Emit(d, k));
      LiteralParses(l, k);
    case DArr(w, items) => ParseArrayComplete(w, items, k);
    case DObj(w, ms) => ParseObjectComplete(w, ms, k);
  }

  lemma {:induction false} ParseNumberLit(l: NumLit, k: Text)
    requires l.Lenient() && Ends(l, k)
    ensures ParseValue(NumText(l, k)) == Ok(NumberValue(LitScan(l, [])), k)
  {
    ScanOfLiteral(l, k);
    Dispatch(NumText(l, k));
    LitScanRest(l, k);
  }

  lemma {:induction false} LitScanRest(l: NumLit, k: Text)
    requires l.Lenient()
    ensures NumberValue(LitScan(l, k)) == NumberValue(LitScan(l, []))
    ensures LitScan(l, k).rest == k
    ensures StartsNumber(NumText(l, k))
  {
    if !l.neg {
      FirstDigit(l.ints, FracText(l.fracs, ExpText(l.exp, k)));
    }
  }

  lemma {:induction false} ParseArrayComplete(w: Text, items: seq<DItem>, k: Text)
    requires AllBlank(w) && ValidItems(items) && ReadsItems(items, [RBRACKET] + k)
    ensures ParseValue(Emit(DArr(w, items), k)) == Ok(Arr(ItemMeanings(items)), k)
    decreases items, 1
  {
    hide Meaning, Valid;
    var s, close := Emit(DArr(w, items), k), [RBRACKET] + k;
    var body := if items == [] then w + close else EmitItems(items, close);
    assert close[1..] == k;
    assert s[1..] == body;
    if items == [] {
      SkipBlanks(w, close);
    } else {
      ItemsHead(items, close);
      ParseItemsComplete(items, k);
      ParseItemsSkips(body);
    }
    Dispatch(s);
  }

  lemma {:induction false} ParseItemsSkips(s: Text)
    ensures ParseItems(Skip(s)) == ParseItems(s)
  {
    SkipTwice(s);
  }

  lemma {:induction false} SkipTwice(s: Text)
    ensures Skip(Skip(s)) == Skip(s)
  {
  }

  lemma {:induction false} ItemsHead(items: seq<DItem>, k: Text)
    requires items != [] && ValidItems(items)
    ensures Peek(Skip(EmitItems(items, k))) != RBRACKET
  {
    var tail := if |items| == 1 then k else [COMMA] + EmitItems(items[1..], k);
    EmitHead(items[0].d, items[0].after + tail);
    SkipBlanks(items[0].before, Emit(items[0].d, items[0].after + tail));
  }

  lemma {:induction false} ParseItemsComplete(items: seq<DItem>, k: Text)
    requires items != [] && ValidItems(items) && ReadsItems(items, [RBRACKET] + k)
    ensures ParseItems(EmitItems(items, [RBRACKET] + k)) == Ok(ItemMeanings(items), k)
    decreases items, 0
  {
    var close, x := [RBRACKET] + k, Meaning(items[0].d);
    if |items| == 1 {
      ParseItemComplete(items[0], close);
      LastItem(x, k);
      OneItem(items, close);
    } else {
      var more := EmitItems(items[1..], close);
      ManyItems(items, close);
      ParseItemComplete(items[0], [COMMA] + more);
      ParseItemsComplete(items[1..], k);
      NextItem(x, more, ItemMeanings(items[1..]), k);
    }
  }

  lemma {:induction false} OneItem(items: seq<DItem>, k: Text)
    requires |items| == 1 && ValidItems(items)
    ensures ItemMeanings(items) == [Meaning(items[0].d)]
    ensures EmitItems(items, k) == items[0].before + Emit(items[0].d, items[0].after + k)
  {
    assert ItemMeanings(items[1..]) == [];
  }

  lemma {:induction false} ManyItems(items: seq<DItem>, k: Text)
    requires |items| > 1 && ValidItems(items)
    ensures ItemMeanings(items) == [Meaning(items[0].d)] + ItemMeanings(items[1..])
    ensures EmitItems(items, k)
         == items[0].before + Emit(items[0].d, items[0].after + ([COMMA] + EmitItems(items[1..], k)))
  {
  }

  lemma {:induction false} LastItem(x: Json, k: Text)
    ensures MoreItems(x, [RBRACKET] + k) == Ok([x], k)
  {
    assert ([RBRACKET] + k)[1..] == k;
  }

  lemma {:induction false} NextItem(x: Json, s: Text, xs: seq<Json>, k: Text)
    requires ParseItems(s) == Ok(xs, k)
    ensures MoreItems(x, [COMMA] + s) == Ok([x] + xs, k)
  {
    assert ([COMMA] + s)[1..] == s;
  }

  lemma {:induction false} ParseItemComplete(it: DItem, tail: Text)
    requires AllBlank(it.before) && Valid(it.d) && AllBlank(it.after)
    requires (Peek(tail) == COMMA || Peek(tail) == RBRACKET) && Reads(it.d, it.after + tail)
    ensures var s := it.before + Emit(it.d, it.after + tail);
      ParseItems(s) == MoreItems(Meaning(it.d), tail)
    decreases it, 2
  {
    var v := Emit(it.d, it.after + tail);
    EmitHead(it.d, it.after + tail);
    SkipBlanks(it.before, v);
    BlanksEnd(it.d, it.after, tail);
    ParseComplete(it.d, it.after + tail);
    SkipBlanks(it.after, tail);
  }

  /** Whitespace, a separator, a closing bracket and the end all end a
      number. */
  lemma {:induction false} BlanksEnd(d: Deriv, ws: Text, k: Text)
    requires AllBlank(ws)
    requires Peek(k) == COMMA || Peek(k) == RBRACKET || Peek(k) == RBRACE || Peek(k) == 0
    ensures MayFollow(d, ws + k)
  {
    if ws != [] {
      assert IsBlank(ws[0]);
    } else {
      assert ws + k == k;
    }
  }

  lemma {:induction false} ParseObjectComplete(w: Text, ms: seq<DMember>, k: Text)
    requires AllBlank(w) && ValidMembers(ms) && ReadsMembers(ms, [RBRACE] + k)
    ensures ParseValue(Emit(DObj(w, ms), k)) == Ok(Obj(MemberMeanings(ms)), k)
    decreases ms, 1
  {
    var close := [RBRACE] + k;
    if ms == [] {
      assert Emit(DObj(w, ms), k) == [LBRACE] + (w + close);
      assert MemberMeanings(ms) == [];
      EmptyObject(w, k);
    } else {
      var body := EmitMembers(ms, close);
      assert Emit(DObj(w, ms), k) == [LBRACE] + body;
      MembersHead(ms, close);
      ParseMembersComplete(ms, k);
      SkippedObject(body);
    }
  }

  lemma {:induction false} EmptyObject(w: Text, k: Text)
    requires AllBlank(w)
    ensures ParseValue([LBRACE] + (w + ([RBRACE] + k))) == Ok(Obj([]), k)
  {
    var s, close := [LBRACE] + (w + ([RBRACE] + k)), [RBRACE] + k;
    assert close[1..] == k;
    assert s[1..] == w + close;
    SkipBlanks(w, close);
    Dispatch(s);
  }

  lemma {:induction false} SkippedObject(body: Text)
    requires Peek(Skip(body)) != RBRACE
    ensures var r := ParseMembers(body);
      ParseValue([LBRACE] + body)
      == if r.Ok? then Ok(Obj(r.value), r.rest) else if r.Fail? then Fail else Malformed
  {
    var s := [LBRACE] + body;
    assert s[1..] == body;
    MembersSkip(body);
    Dispatch(s);
  }

  lemma {:induction false} MembersSkip(s: Text)
    ensures ParseMembers(Skip(s)) == ParseMembers(s)
  {
    SkipTwice(s);
    assert ParseMember(Skip(s)) == ParseMember(s);
  }

  lemma {:induction false} MembersHead(ms: seq<DMember>, k: Text)
    requires ms != [] && ValidMembers(ms)
    ensures Peek(Skip(EmitMembers(ms, k))) == QUOTE
  {
    var tail := if |ms| == 1 then k else [COMMA] + EmitMembers(ms[1..], k);
    SkipBlanks(ms[0].before, EmitMember(ms[0], tail)[|ms[0].before|..]);
  }

  lemma {:induction false} ParseMemberComplete(m: DMember, k: Text)
    requires m.Framed() && Valid(m.d) && ReadsMember(m, k)
    requires Peek(k) == COMMA || Peek(k) == RBRACE
    ensures ParseMember(EmitMember(m, k)) == Ok(Member(m.key.Value(), Meaning(m.d)), m.after + k)
    decreases m, 2
  {
    var v := Emit(m.d, m.after + k);
    var t := [COLON] + (m.afterColon + v);
    SkipBlanks(m.before, m.key.Spelling(m.beforeColon + t));
    LiteralParses(m.key, m.beforeColon + t);
    SkipBlanks(m.beforeColon, t);
    assert t[1..] == m.afterColon + v;
    EmitHead(m.d, m.after + k);
    SkipBlanks(m.afterColon, v);
    BlanksEnd(m.d, m.after, k);
    ParseComplete(m.d, m.after + k);
  }

  lemma {:induction false} ParseMembersComplete(ms: seq<DMember>, k: Text)
    requires ms != [] && ValidMembers(ms) && ReadsMembers(ms, [RBRACE] + k)
    ensures ParseMembers(EmitMembers(ms, [RBRACE] + k)) == Ok(MemberMeanings(ms), k)
    decreases ms, 0
  {
    var close, m := [RBRACE] + k, Member(ms[0].key.Value(), Meaning(ms[0].d));
    if |ms| == 1 {
      ParseMemberComplete(ms[0], close);
      SkipBlanks(ms[0].after, close);
      LastMember(m, k);
      OneMember(ms, close);
    } else {
      var more := EmitMembers(ms[1..], close);
      ManyMembers(ms, close);
      ParseMemberComplete(ms[0], [COMMA] + more);
      SkipBlanks(ms[0].after, [COMMA] + more);
      ParseMembersComplete(ms[1..], k);
      NextMember(m, more, MemberMeanings(ms[1..]), k);
    }
  }

  lemma {:induction false} OneMember(ms: seq<DMember>, k: Text)
    requires |ms| == 1 && ValidMembers(ms)
    ensures MemberMeanings(ms) == [Member(ms[0].key.Value(), Meaning(ms[0].d))]
    ensures EmitMembers(ms, k) == EmitMember(ms[0], k)
  {
    assert MemberMeanings(ms[1..]) == [];
  }

  lemma {:induction false} ManyMembers(ms: seq<DMember>, k: Text)
    requires |ms| > 1 && ValidMembers(ms)
    ensures MemberMeanings(ms)
         == [Member(ms[0].key.Value(), Meaning(ms[0].d))] + MemberMeanings(ms[1..])
    ensures EmitMembers(ms, k) == EmitMember(ms[0], [COMMA] + EmitMembers(ms[1..], k))
  {
  }

  lemma {:induction false} LastMember(m: Member, k: Text)
    ensures MoreMembers(m, [RBRACE] + k) == Ok([m], k)
  {
    assert ([RBRACE] + k)[1..] == k;
  }

  lemma {:induction false} NextMember(m: Member, s: Text, ms: seq<Member>, k: Text)
    requires ParseMembers(s) == Ok(ms, k)
    ensures MoreMembers(m, [COMMA] + s) == Ok([m] + ms, k)
  {
    assert ([COMMA] + s)[1..] == s;
  }

  // ------------------------------------------------------------ RFC 8259

  /** Whitespace of section 2. */
  predicate RfcBlank(ws: Text) {
    forall i :: 0 <= i < |ws| ==> ws[i] == 9 || ws[i] == 10 || ws[i] == 13 || ws[i] == 32
  }

  /** Characters of section 7. Bytes from 0x80 up are those of UTF-8. */
  predicate RfcUnits(us: seq<Unit>) {
    forall i :: 0 <= i < |us| ==> us[i].Valid() && RfcUnit(us[i])
  }

  predicate RfcLiteral(l: Literal) { l.Units? && RfcUnits(l.us) }

  predicate RfcUnit(u: Unit) {
    match u
    case Plain(b) => b >= 32
    case Escaped(c) => IsStandardEscape(c)
    case Utf16(q) => IsHexQuad(q)
  }

  /** Derivations of the grammar of RFC 8259, sections 2 to 7. */
  predicate Rfc(d: Deriv) {
    match d
    case DNull => true
    case DBool(_) => true
    case DNum(l) => l.Valid()
    case DStr(l) => RfcLiteral(l)
    case DArr(w, items) => RfcBlank(w) && RfcItems(items)
    case DObj(w, ms) => RfcBlank(w) && RfcMembers(ms)
  }

  predicate RfcItems(items: seq<DItem>) {
    items == [] ||
    (RfcBlank(items[0].before) && Rfc(items[0].d) && RfcBlank(items[0].after) && RfcItems(items[1..]))
  }

  predicate RfcMembers(ms: seq<DMember>) {
    ms == [] || (ms[0].RfcFramed() && Rfc(ms[0].d) && RfcMembers(ms[1..]))
  }

  lemma {:induction false} RfcIsValid(d: Deriv)
    requires Rfc(d)
    ensures Valid(d)
  {
    match d
    case DNum(l) => ValidIsLenient(l);
    case DArr(_, items) => RfcItemsValid(items);
    case DObj(_, ms) => RfcMembersValid(ms);
    case _ =>
  }

  lemma {:induction false} RfcItemsValid(items: seq<DItem>)
    requires RfcItems(items)
    ensures ValidItems(items)
  {
    if items != [] {
      RfcIsValid(items[0].d);
      RfcItemsValid(items[1..]);
    }
  }

  lemma {:induction false} RfcMembersValid(ms: seq<DMember>)
    requires RfcMembers(ms)
    ensures ValidMembers(ms)
  {
    if ms != [] {
      RfcIsValid(ms[0].d);
      RfcMembersValid(ms[1..]);
    }
  }

  /** The literals of RFC 8259 are units. */
  lemma {:induction false} RfcReads(d: Deriv, k: Text)
    requires Rfc(d)
    ensures Reads(d, k)
    decreases d
  {
    match d
    case DArr(_, items) => RfcItemsRead(items, [RBRACKET] + k);
    case DObj(_, ms) => RfcMembersRead(ms, [RBRACE] + k);
    case _ =>
  }

  lemma {:induction false} RfcItemsRead(items: seq<DItem>, k: Text)
    requires RfcItems(items)
    ensures ReadsItems(items, k)
    decreases items
  {
    hide Reads, Rfc, Emit, EmitItems;
    if items != [] {
      RfcReads(items[0].d, items[0].after + if |items| == 1 then k else [COMMA] + EmitItems(items[1..], k));
      RfcItemsRead(items[1..], k);
    }
  }

  lemma {:induction false} RfcMembersRead(ms: seq<DMember>, k: Text)
    requires RfcMembers(ms)
    ensures ReadsMembers(ms, k)
    decreases ms
  {
    hide Reads, Rfc, Emit, EmitMembers;
    if ms != [] {
      RfcReads(ms[0].d, ms[0].after + if |ms| == 1 then k else [COMMA] + EmitMembers(ms[1..], k));
      RfcMembersRead(ms[1..], k);
    }
  }

  /** `cJSON_Parse` accepts every text of RFC 8259, whatever whitespace
      surrounds the value, returns the value the text derives, and stops right
      after it. */
  lemma {:induction false} RfcTextAccepted(before: Text, d: Deriv, after: Text)
    requires RfcBlank(before) && Rfc(d) && RfcBlank(after)
    ensures Valid(d) && Parse(before + Emit(d, after)) == Ok(Meaning(d), after)
  {
    RfcIsValid(d);
    EmitHead(d, after);
    SkipBlanks(before, Emit(d, after));
    assert after + [] == after;
    BlanksEnd(d, after, []);
    RfcReads(d, after);
    ParseComplete(d, after);
  }
}

/** Exactly which texts `parse_value` accepts, with which value, and where it
    stops. */
module Accepted {
  import opened Bytes
  import opened Numbers
  import opened NumberText
  import opened ParsedResult
  import opened Strings
  import opened JsonValue
  import opened Parser
  import opened Grammar

  /** `s` is the text of a derivation of `v`, followed by `k`. */
  predicate Derives(d: Deriv, s: Text, v: Json, k: Text) {
    Valid(d) && MayFollow(d, k) && Reads(d, k) && s == Emit(d, k) && v == Meaning(d)
  }

  /** `s` is a string literal of units that runs into the NUL. */
  predicate OpenString(us: seq<Unit>, s: Text, v: Json, k: Text) {
    AllValid(us) && Peek(k) == 0 && s == [QUOTE] + BodyText(us, k) && v == Str(Decode(us))
  }

  // --------------------------------------------------------------- pieces

  lemma {:induction false} Skipped(s: Text) returns (ws: Text)
    ensures AllBlank(ws) && s == ws + Skip(s)
  {
    hide IsBlank;
    if s != [] && IsBlank(s[0]) {
      var t := Skipped(s[1..]);
      ws := [s[0]] + t;
      Assoc([s[0]], t, Skip(s));
      assert s == [s[0]] + s[1..];
    } else {
      ws := [];
    }
  }

  lemma {:induction false} HeadTail(s: Text, b: byte)
    requires Peek(s) == b && b != 0
    ensures s == [b] + s[1..]
  {
  }

  lemma {:induction false} NoMore(k: Text)
    requires Peek(k) == 0
    ensures Peek(Skip(k)) == 0
  {
  }

  /** A literal that parses is spelled out, or is one of units that runs into
      the NUL. */
  lemma {:induction false} SpelledString(s: Text, t: Text, k: Text) returns (l: Literal)
    requires ParseString(s) == Ok(t, k)
    ensures l.Valid() && t == l.Value()
    ensures (l.Reads(k) && s == l.Spelling(k)) || (l.Units? && Peek(k) == 0 && s == [QUOTE] + BodyText(l.us, k))
  {
    HeadTail(s, QUOTE);
    var body := LexBody(s[1..]);
    if body.Lexed? {
      l := Units(body.units);
      LexedLiteral(s, t, k);
      if Peek(body.rest) == QUOTE {
        HeadTail(body.rest, QUOTE);
      }
    } else {
      hide LexBody;
      l := Odd(s[1..|s| - |k|], t);
      assert s[1..] == l.body + k by {
        assert k == s[|s| - |k|..];
      }
    }
  }

  lemma {:induction false} LexedLiteral(s: Text, t: Text, k: Text)
    requires ParseString(s) == Ok(t, k) && LexBody(s[1..]).Lexed?
    ensures var body := LexBody(s[1..]);
      t == Decode(body.units) && k == if Peek(body.rest) == QUOTE then body.rest[1..] else body.rest
  {
    hide LexBody, ParseString;
    var body := LexBody(s[1..]);
    ParseBody(body.units, body.rest);
    QuoteHead(s, t, k);
  }

  lemma {:induction false} QuoteHead(s: Text, t: Text, k: Text)
    requires ParseString(s) == Ok(t, k)
    ensures Peek(s) == QUOTE && s == [QUOTE] + s[1..]
  {
  }

  lemma {:induction false} StartsWith(s: Text, w: Text)
    requires Starts(s, w)
    ensures s == w + s[|w|..]
  {
  }

  /** The branches without a chain below them. */
  lemma {:induction false} SpelledScalar(s: Text, v: Json, k: Text) returns (d: Deriv)
    requires ParseValue(s) == Ok(v, k)
    requires Peek(s) != QUOTE && Peek(s) != LBRACKET && Peek(s) != LBRACE
    ensures Derives(d, s, v, k)
  {
    hide ScanNumber, ParseArray, ParseObject, NumberValue;
    if Starts(s, NULL_TEXT) {
      d := DNull;
      StartsWith(s, NULL_TEXT);
    } else if Starts(s, FALSE_TEXT) {
      d := DBool(false);
      StartsWith(s, FALSE_TEXT);
    } else if Starts(s, TRUE_TEXT) {
      d := DBool(true);
      StartsWith(s, TRUE_TEXT);
    } else {
      d := SpelledNumberValue(s, v, k);
    }
  }

  lemma {:induction false} SpelledNumberValue(s: Text, v: Json, k: Text) returns (d: Deriv)
    requires StartsNumber(s) && v == NumberValue(ScanNumber(s)) && k == ScanNumber(s).rest
    ensures Derives(d, s, v, k)
  {
    hide ScanNumber, NumText, LitScan, Ends;
    var l := SpelledNumber(s);
    LitScanRest(l, k);
    d := DNum(l);
  }

  // -------------------------------------------------------------- soundness

  /** Whatever is accepted, and is no string that runs into the NUL, is the
      text of a derivation of the value returned. */
  lemma {:induction false} Spelled(s: Text, v: Json, k: Text) returns (d: Deriv)
    requires ParseValue(s) == Ok(v, k) && (Peek(s) == QUOTE ==> Peek(k) != 0)
    ensures Derives(d, s, v, k)
    decreases |s|, 1
  {
    hide Emit, Meaning, ParseValue, ParseString, ParseArray, ParseObject;
    if Peek(s) == QUOTE {
      d := SpelledLiteral(s, v, k);
    } else if Peek(s) == LBRACKET {
      d := SpelledArray(s, v, k);
    } else if Peek(s) == LBRACE {
      d := SpelledObject(s, v, k);
    } else {
      d := SpelledScalar(s, v, k);
    }
  }

  lemma {:induction false} SpelledLiteral(s: Text, v: Json, k: Text) returns (d: Deriv)
    requires ParseValue(s) == Ok(v, k) && Peek(s) == QUOTE && Peek(k) != 0
    ensures Derives(d, s, v, k)
  {
    Dispatch(s);
    hide ParseValue, ParseString;
    var l := SpelledString(s, v.s, k);
    d := DStr(l);
  }

  lemma {:induction false} ArrayParts(s: Text, v: Json, k: Text) returns (body: Text)
    requires ParseValue(s) == Ok(v, k) && Peek(s) == LBRACKET
    ensures body == Skip(s[1..]) && |body| < |s|
    ensures Peek(body) == RBRACKET ==> v == Arr([]) && k == body[1..]
    ensures Peek(body) != RBRACKET ==> v.Arr? && ParseItems(body) == Ok(v.items, k)
  {
    Dispatch(s);
    hide ParseValue, ParseItems, Skip;
    body := Skip(s[1..]);
  }

  lemma {:induction false} SpelledArray(s: Text, v: Json, k: Text) returns (d: Deriv)
    requires ParseValue(s) == Ok(v, k) && Peek(s) == LBRACKET
    ensures Derives(d, s, v, k)
    decreases |s|, 0
  {
    hide ParseValue, ParseItems, Skip;
    var body := ArrayParts(s, v, k);
    HeadTail(s, LBRACKET);
    var ws := Skipped(s[1..]);
    if Peek(body) == RBRACKET {
      HeadTail(body, RBRACKET);
      d := DArr(ws, []);
      assert Reads(d, k);
      assert Emit(d, k) == [LBRACKET] + (ws + body);
      assert Meaning(d) == Arr([]);
    } else {
      var items := SpelledItems(body, v.items, k);
      items := BlanksInFront(ws, items, k);
      d := DArr([], items);
      assert Reads(d, k);
      assert Emit(d, k) == [LBRACKET] + (ws + body);
    }
  }

  /** The whitespace after the bracket belongs to the first item. */
  lemma {:induction false} BlanksInFront(ws: Text, items: seq<DItem>, k: Text) returns (r: seq<DItem>)
    requires items != [] && ValidItems(items) && AllBlank(ws) && ReadsItems(items, [RBRACKET] + k)
    ensures r != [] && ReadsItems(r, [RBRACKET] + k) && ValidItems(r) && ItemMeanings(r) == ItemMeanings(items)
    ensures EmitItems(r, [RBRACKET] + k) == ws + EmitItems(items, [RBRACKET] + k)
  {
    var it := items[0];
    r := [DItem(ws + it.before, it.d, it.after)] + items[1..];
    assert r[1..] == items[1..];
    hide Emit, Meaning, Valid, Reads;
    var tail := if |items| == 1 then [RBRACKET] + k else [COMMA] + EmitItems(items[1..], [RBRACKET] + k);
    Assoc(ws, it.before, Emit(it.d, it.after + tail));
  }

  lemma {:induction false} MoreItemParts(x: Json, v: Text, xs: seq<Json>, k: Text)
    requires MoreItems(x, v) == Ok(xs, k)
    ensures xs != [] && xs[0] == x && Peek(v) != 0
    ensures Peek(v) == COMMA ==> ParseItems(v[1..]) == Ok(xs[1..], k)
    ensures Peek(v) != COMMA ==> Peek(v) == RBRACKET && v[1..] == k && xs == [x]
  {
    hide ParseItems;
    if Peek(v) == COMMA {
      assert xs == [x] + ParseItems(v[1..]).value;
    }
  }

  lemma {:induction false} ItemParts(s: Text, xs: seq<Json>, k: Text) returns (x: Json, r: Text)
    requires ParseItems(s) == Ok(xs, k)
    ensures ParseValue(Skip(s)) == Ok(x, r) && xs != [] && x == xs[0] && Peek(Skip(r)) != 0
    ensures |r| < |s| && |Skip(s)| <= |s| && |Skip(r)| < |s|
    ensures Peek(Skip(r)) == COMMA ==> ParseItems(Skip(r)[1..]) == Ok(xs[1..], k)
    ensures Peek(Skip(r)) != COMMA ==> Peek(Skip(r)) == RBRACKET && Skip(r)[1..] == k && xs == [x]
  {
    hide ParseValue, MoreItems, Skip;
    var p := ParseValue(Skip(s));
    x, r := p.value, p.rest;
    MoreItemParts(x, Skip(r), xs, k);
  }

  lemma {:induction false} SpelledItems(s: Text, xs: seq<Json>, k: Text) returns (items: seq<DItem>)
    requires ParseItems(s) == Ok(xs, k)
    ensures items != [] && ValidItems(items) && ItemMeanings(items) == xs
    ensures ReadsItems(items, [RBRACKET] + k)
    ensures s == EmitItems(items, [RBRACKET] + k)
    decreases |s|, 2
  {
    hide ParseItems, ParseValue, MoreItems, Emit, Meaning, Valid, Reads, Skip, IsSuffix;
    var x, r := ItemParts(s, xs, k);
    if Peek(r) == 0 {
      NoMore(r);
    }
    var d := Spelled(Skip(s), x, r);
    var before := Skipped(s);
    var after := Skipped(r);
    var it := DItem(before, d, after);
    var v := Skip(r);
    HeadTail(v, Peek(v));
    if Peek(v) == COMMA {
      var rest := SpelledItems(v[1..], xs[1..], k);
      items := [it] + rest;
      assert items[1..] == rest;
    } else {
      items := [it];
      assert items[1..] == [];
    }
  }

  lemma {:induction false} ObjectParts(s: Text, v: Json, k: Text) returns (body: Text)
    requires ParseValue(s) == Ok(v, k) && Peek(s) == LBRACE
    ensures body == Skip(s[1..]) && |body| < |s|
    ensures Peek(body) == RBRACE ==> v == Obj([]) && k == body[1..]
    ensures Peek(body) != RBRACE ==> v.Obj? && ParseMembers(body) == Ok(v.members, k)
  {
    Dispatch(s);
    hide ParseValue, ParseMembers, Skip;
    body := Skip(s[1..]);
  }

  lemma {:induction false} SpelledObject(s: Text, v: Json, k: Text) returns (d: Deriv)
    requires ParseValue(s) == Ok(v, k) && Peek(s) == LBRACE
    ensures Derives(d, s, v, k)
    decreases |s|, 0
  {
    hide ParseValue, ParseMembers, Skip;
    var body := ObjectParts(s, v, k);
    HeadTail(s, LBRACE);
    var ws := Skipped(s[1..]);
    if Peek(body) == RBRACE {
      HeadTail(body, RBRACE);
      d := DObj(ws, []);
      assert Reads(d, k);
      assert Emit(d, k) == [LBRACE] + (ws + body);
      assert Meaning(d) == Obj([]);
    } else {
      var ms := SpelledMembers(body, v.members, k);
      ms := BlanksInFrontOfKey(ws, ms, k);
      d := DObj([], ms);
      assert Reads(d, k);
      assert Emit(d, k) == [LBRACE] + (ws + body);
    }
  }

  lemma {:induction false} BlanksInFrontOfKey(ws: Text, ms: seq<DMember>, k: Text) returns (r: seq<DMember>)
    requires ms != [] && ValidMembers(ms) && AllBlank(ws) && ReadsMembers(ms, [RBRACE] + k)
    ensures r != [] && ReadsMembers(r, [RBRACE] + k) && ValidMembers(r) && MemberMeanings(r) == MemberMeanings(ms)
    ensures EmitMembers(r, [RBRACE] + k) == ws + EmitMembers(ms, [RBRACE] + k)
  {
    var m := ms[0];
    var n := m.(before := ws + m.before);
    r := [n] + ms[1..];
    assert r[1..] == ms[1..];
    hide Emit, Meaning, Valid, Reads, BodyText;
    var tail := if |ms| == 1 then [RBRACE] + k else [COMMA] + EmitMembers(ms[1..], [RBRACE] + k);
    Assoc(ws, m.before, EmitMember(m, tail)[|m.before|..]);
    assert EmitMember(n, tail) == ws + EmitMember(m, tail);
  }

  lemma {:induction false} MemberParts(s: Text, m: Member, r: Text) returns (q: Text)
    requires ParseMember(s) == Ok(m, r)
    ensures ParseString(Skip(s)) == Ok(m.key, q) && Peek(Skip(q)) == COLON
    ensures ParseValue(Skip(Skip(q)[1..])) == Ok(m.value, r)
    ensures |Skip(Skip(q)[1..])| < |s| && |r| < |s|
  {
    q := ParseString(Skip(s)).rest;
  }

  /** One member, up to what follows its value. */
  lemma {:induction false} SpelledMember(s: Text, m: Member, r: Text) returns (d: DMember)
    requires ParseMember(s) == Ok(m, r) && Peek(Skip(r)) != 0
    ensures d.Framed() && Valid(d.d) && Member(d.key.Value(), Meaning(d.d)) == m
    ensures ReadsMember(d, Skip(r)) && s == EmitMember(d, Skip(r))
    decreases |s|, 2
  {
    hide ParseMember, ParseValue, ParseString, Emit, Meaning, Valid, Reads, Skip, BodyText, Decode;
    var q := MemberParts(s, m, r);
    if Peek(q) == 0 {
      NoMore(q);
    }
    if Peek(r) == 0 {
      NoMore(r);
    }
    var l := SpelledString(Skip(s), m.key, q);
    var v := Skip(q);
    HeadTail(v, COLON);
    var dv := Spelled(Skip(v[1..]), m.value, r);
    var before := Skipped(s);
    var beforeColon := Skipped(q);
    var afterColon := Skipped(v[1..]);
    var after := Skipped(r);
    d := DMember(before, l, beforeColon, afterColon, dv, after);
  }

  lemma {:induction false} MoreParts(m: Member, v: Text, ms: seq<Member>, k: Text)
    requires MoreMembers(m, v) == Ok(ms, k)
    ensures ms != [] && ms[0] == m && Peek(v) != 0
    ensures Peek(v) == COMMA ==> ParseMembers(v[1..]) == Ok(ms[1..], k)
    ensures Peek(v) != COMMA ==> Peek(v) == RBRACE && v[1..] == k && ms == [m]
  {
    hide ParseMembers;
    if Peek(v) == COMMA {
      assert ms == [m] + ParseMembers(v[1..]).value;
    }
  }

  lemma {:induction false} MembersParts(s: Text, ms: seq<Member>, k: Text) returns (r: Text)
    requires ParseMembers(s) == Ok(ms, k)
    ensures ms != [] && ParseMember(s) == Ok(ms[0], r) && Peek(Skip(r)) != 0
    ensures |r| < |s| && |Skip(r)| < |s|
    ensures Peek(Skip(r)) == COMMA ==> ParseMembers(Skip(r)[1..]) == Ok(ms[1..], k)
    ensures Peek(Skip(r)) != COMMA ==> Peek(Skip(r)) == RBRACE && Skip(r)[1..] == k && ms == [ms[0]]
  {
    hide ParseMember, MoreMembers, Skip;
    var p := ParseMember(s);
    r := p.rest;
    MoreParts(p.value, Skip(r), ms, k);
  }

  lemma {:induction false} SpelledMembers(s: Text, ms: seq<Member>, k: Text) returns (ds: seq<DMember>)
    requires ParseMembers(s) == Ok(ms, k)
    ensures ds != [] && ValidMembers(ds) && MemberMeanings(ds) == ms
    ensures ReadsMembers(ds, [RBRACE] + k)
    ensures s == EmitMembers(ds, [RBRACE] + k)
    decreases |s|, 3
  {
    hide ParseMembers, ParseMember, MoreMembers, Emit, EmitMember, Meaning, Valid, ReadsMember, Skip, Decode;
    var r := MembersParts(s, ms, k);
    var d := SpelledMember(s, ms[0], r);
    var v := Skip(r);
    HeadTail(v, Peek(v));
    if Peek(v) == COMMA {
      var rest := SpelledMembers(v[1..], ms[1..], k);
      ds := [d] + rest;
      assert ds[1..] == rest;
    } else {
      ds := [d];
      assert ds[1..] == [];
    }
  }

  // ------------------------------------------------------------- the theorem

  /** `parse_value` accepts a text, with a value, up to some point, exactly when
      the text up to there is that of a derivation of the value, or is a
      string literal of units that runs into the NUL. */
  lemma {:induction false} AcceptedExactly(s: Text, v: Json, k: Text)
    ensures ParseValue(s) == Ok(v, k)
       <==> (exists d :: Derives(d, s, v, k)) || (exists us :: OpenString(us, s, v, k))
  {
    if ParseValue(s) == Ok(v, k) {
      SpelledOrOpen(s, v, k);
    }
    forall d | Derives(d, s, v, k) ensures ParseValue(s) == Ok(v, k) {
      ParseComplete(d, k);
    }
    forall us | OpenString(us, s, v, k) ensures ParseValue(s) == Ok(v, k) {
      OpenAccepted(us, k);
    }
  }

  lemma {:induction false} SpelledOrOpen(s: Text, v: Json, k: Text)
    requires ParseValue(s) == Ok(v, k)
    ensures (exists d :: Derives(d, s, v, k)) || (exists us :: OpenString(us, s, v, k))
  {
    if Peek(s) == QUOTE {
      Dispatch(s);
      hide ParseValue, ParseString, Derives, OpenString;
      var l := SpelledString(s, v.s, k);
      StringCases(l, s, v, k);
    } else {
      hide ParseValue, Derives;
      var d := Spelled(s, v, k);
      assert Derives(d, s, v, k);
    }
  }

  lemma {:induction false} StringCases(l: Literal, s: Text, v: Json, k: Text)
    requires l.Valid() && v == Str(l.Value())
    requires (l.Reads(k) && s == l.Spelling(k)) || (l.Units? && Peek(k) == 0 && s == [QUOTE] + BodyText(l.us, k))
    ensures Derives(DStr(l), s, v, k) || (l.Units? && OpenString(l.us, s, v, k))
  {
  }

  lemma {:induction false} OpenAccepted(us: seq<Unit>, k: Text)
    requires AllValid(us) && Peek(k) == 0
    ensures ParseValue([QUOTE] + BodyText(us, k)) == Ok(Str(Decode(us)), k)
  {
    ParseBody(us, k);
    Dispatch([QUOTE] + BodyText(us, k));
  }
}

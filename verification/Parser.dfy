/** `parse_value`, `parse_array` and `parse_object` as functions from the text
    at the cursor to a value and the text at the returned cursor. */
module Parser {
  import opened Bytes
  import opened Numbers
  import opened ParsedResult
  import opened Strings
  import opened JsonValue

  const NULL_TEXT: Text := [110, 117, 108, 108]
  const FALSE_TEXT: Text := [102, 97, 108, 115, 101]
  const TRUE_TEXT: Text := [116, 114, 117, 101]

  /** The three keywords of section 3 of RFC 8259. */
  lemma {:induction false} KeywordsAre()
    ensures NULL_TEXT == Ascii("null") && FALSE_TEXT == Ascii("false") && TRUE_TEXT == Ascii("true")
  {
  }

  /** The fields `parse_number` stores, read as a value. */
  function NumberValue(c: Scan): Json
    requires c.Valid()
  {
    if c.IsInt() then Int(Stored(c.neg, c.Mantissa()))
    else Dbl(if c.neg then -(c.Mantissa() as int) else c.Mantissa(), c.Exponent())
  }

  predicate StartsNumber(s: Text) { Peek(s) == MINUS || IsDigit(Peek(s)) }

  /** Every cursor returned stands past where the function started, and within
      the text. */
  function ParseValue(s: Text): (r: Parsed<Json>)
    ensures r.Ok? ==> IsSuffix(r.rest, s) && |r.rest| < |s|
    decreases |s|, 1
  {
    if Starts(s, NULL_TEXT) then Ok(Null, s[4..])
    else if Starts(s, FALSE_TEXT) then Ok(Bool(false), s[5..])
    else if Starts(s, TRUE_TEXT) then Ok(Bool(true), s[4..])
    else if Peek(s) == QUOTE then ParseStringValue(s)
    else if StartsNumber(s) then Ok(NumberValue(ScanNumber(s)), ScanNumber(s).rest)
    else if Peek(s) == LBRACKET then ParseArray(s)
    else if Peek(s) == LBRACE then ParseObject(s)
    else Fail
  }

  function ParseStringValue(s: Text): (r: Parsed<Json>)
    ensures r.Ok? ==> IsSuffix(r.rest, s) && |r.rest| < |s|
  {
    match ParseString(s)
    case Ok(t, k) => Ok(Str(t), k)
    case Fail => Fail
    case Malformed => Malformed
  }

  function ParseArray(s: Text): (r: Parsed<Json>)
    requires Peek(s) == LBRACKET
    ensures r.Ok? ==> IsSuffix(r.rest, s) && |r.rest| < |s|
    decreases |s|, 0
  {
    var v := Skip(s[1..]);
    SuffixTrans(v, s[1..], s);
    if Peek(v) == RBRACKET then Ok(Arr([]), v[1..])
    else match ParseItems(v)
      case Ok(items, k) =>
        SuffixTrans(k, v, s);
        Ok(Arr(items), k)
      case Fail => Fail
      case Malformed => Malformed
  }

  /** One item and, after a comma, the items that follow, to the closing
      bracket. */
  function ParseItems(s: Text): (r: Parsed<seq<Json>>)
    ensures r.Ok? ==> IsSuffix(r.rest, s) && |r.rest| < |s| && r.value != []
    decreases |s|, 2
  {
    match ParseValue(Skip(s))
    case Ok(x, k) =>
      SuffixTrans(k, Skip(s), s);
      SuffixTrans(Skip(k), k, s);
      var r := MoreItems(x, Skip(k));
      if r.Ok? then
        SuffixTrans(r.rest, Skip(k), s);
        r
      else r
    case Fail => Fail
    case Malformed => Malformed
  }

  function MoreItems(x: Json, v: Text): (r: Parsed<seq<Json>>)
    ensures r.Ok? ==> IsSuffix(r.rest, v) && |r.rest| < |v| && r.value != []
    decreases |v|, 3
  {
    if Peek(v) == COMMA then
      match ParseItems(v[1..])
      case Ok(xs, k) =>
        SuffixTrans(k, v[1..], v);
        Ok([x] + xs, k)
      case Fail => Fail
      case Malformed => Malformed
    else if Peek(v) == RBRACKET then Ok([x], v[1..])
    else Fail
  }

  function ParseObject(s: Text): (r: Parsed<Json>)
    requires Peek(s) == LBRACE
    ensures r.Ok? ==> IsSuffix(r.rest, s) && |r.rest| < |s|
    decreases |s|, 0
  {
    var v := Skip(s[1..]);
    SuffixTrans(v, s[1..], s);
    if Peek(v) == RBRACE then Ok(Obj([]), v[1..])
    else match ParseMembers(v)
      case Ok(ms, k) =>
        SuffixTrans(k, v, s);
        Ok(Obj(ms), k)
      case Fail => Fail
      case Malformed => Malformed
  }

  /** A key, a colon and a value, and, after a comma, the members that follow,
      to the closing brace. */
  function ParseMembers(s: Text): (r: Parsed<seq<Member>>)
    ensures r.Ok? ==> IsSuffix(r.rest, s) && |r.rest| < |s| && r.value != []
    decreases |s|, 2
  {
    match ParseMember(s)
    case Ok(m, k) =>
      SuffixTrans(Skip(k), k, s);
      var r := MoreMembers(m, Skip(k));
      if r.Ok? then
        SuffixTrans(r.rest, Skip(k), s);
        r
      else r
    case Fail => Fail
    case Malformed => Malformed
  }

  function ParseMember(s: Text): (r: Parsed<Member>)
    ensures r.Ok? ==> IsSuffix(r.rest, s) && |r.rest| < |s|
    decreases |s|, 1
  {
    match ParseString(Skip(s))
    case Ok(key, k) =>
      SuffixTrans(k, Skip(s), s);
      SuffixTrans(Skip(k), k, s);
      var r := MemberValue(key, Skip(k));
      if r.Ok? then
        SuffixTrans(r.rest, Skip(k), s);
        r
      else r
    case Fail => Fail
    case Malformed => Malformed
  }

  function MemberValue(key: Text, v: Text): (r: Parsed<Member>)
    ensures r.Ok? ==> IsSuffix(r.rest, v) && |r.rest| < |v|
    decreases |v|, 3
  {
    if Peek(v) != COLON then Fail
    else match ParseValue(Skip(v[1..]))
      case Ok(x, k) =>
        SuffixTrans(k, Skip(v[1..]), v[1..]);
        SuffixTrans(k, v[1..], v);
        Ok(Member(key, x), k)
      case Fail => Fail
      case Malformed => Malformed
  }

  function MoreMembers(m: Member, v: Text): (r: Parsed<seq<Member>>)
    ensures r.Ok? ==> IsSuffix(r.rest, v) && |r.rest| < |v| && r.value != []
    decreases |v|, 3
  {
    if Peek(v) == COMMA then
      match ParseMembers(v[1..])
      case Ok(ms, k) =>
        SuffixTrans(k, v[1..], v);
        Ok([m] + ms, k)
      case Fail => Fail
      case Malformed => Malformed
    else if Peek(v) == RBRACE then Ok([m], v[1..])
    else Fail
  }

  /** `cJSON_Parse`: what follows the value is ignored. */
  function Parse(s: Text): Parsed<Json> {
    ParseValue(Skip(s))
  }

  /** The first byte decides which branch `parse_value` takes. */
  lemma {:induction false} Dispatch(s: Text)
    ensures Peek(s) == QUOTE ==> ParseValue(s) == ParseStringValue(s)
    ensures StartsNumber(s) ==> ParseValue(s) == Ok(NumberValue(ScanNumber(s)), ScanNumber(s).rest)
    ensures Peek(s) == LBRACKET ==> ParseValue(s) == ParseArray(s)
    ensures Peek(s) == LBRACE ==> ParseValue(s) == ParseObject(s)
  {
    if Starts(s, NULL_TEXT) {
      assert s[0] == NULL_TEXT[0];
    } else if Starts(s, FALSE_TEXT) {
      assert s[0] == FALSE_TEXT[0];
    } else if Starts(s, TRUE_TEXT) {
      assert s[0] == TRUE_TEXT[0];
    }
  }

  lemma {:induction false} ParseKeyword(k: Text)
    ensures ParseValue(NULL_TEXT + k) == Ok(Null, k)
    ensures ParseValue(FALSE_TEXT + k) == Ok(Bool(false), k)
    ensures ParseValue(TRUE_TEXT + k) == Ok(Bool(true), k)
  {
    var f, t := FALSE_TEXT + k, TRUE_TEXT + k;
    assert !Starts(f, NULL_TEXT) by {
      assert f[0] == FALSE_TEXT[0] && NULL_TEXT[0] == 110;
    }
    assert !Starts(t, NULL_TEXT) && !Starts(t, FALSE_TEXT) by {
      assert t[0] == TRUE_TEXT[0] && NULL_TEXT[0] == 110 && FALSE_TEXT[0] == 102;
    }
    assert (NULL_TEXT + k)[4..] == k && f[5..] == k && t[4..] == k;
  }
}

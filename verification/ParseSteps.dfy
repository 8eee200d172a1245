/** What the comma loops of `parse_array` and `parse_object` have done so far,
    against the recursive functions they compute. */
module ParseSteps {
  import opened Bytes
  import opened ParsedResult
  import opened JsonValue
  import Parser

  /** A parse result with elements before it. */
  function Prefixed<T>(xs: seq<T>, r: Parsed<seq<T>>): Parsed<seq<T>> {
    if r.Ok? then Ok(xs + r.value, r.rest) else r
  }

  lemma {:induction false} PrefixedNone<T>(r: Parsed<seq<T>>)
    ensures Prefixed([], r) == r
  {
    if r.Ok? {
      assert [] + r.value == r.value;
    }
  }

  lemma {:induction false} PrefixedTwice<T>(xs: seq<T>, x: T, q: Parsed<seq<T>>)
    ensures Prefixed(xs, Prefixed([x], q)) == Prefixed(xs + [x], q)
  {
    if q.Ok? {
      assert xs + ([x] + q.value) == xs + [x] + q.value;
    }
  }

  function Init<T>(xs: seq<T>): seq<T>
    requires xs != []
  {
    xs[..|xs| - 1]
  }

  function Final<T>(xs: seq<T>): T
    requires xs != []
  {
    xs[|xs| - 1]
  }

  lemma {:induction false} InitFinal<T>(xs: seq<T>, x: T)
    ensures Init(xs + [x]) == xs && Final(xs + [x]) == x
    ensures xs != [] ==> Init(xs) + [Final(xs)] == xs
  {
  }

  // -------------------------------------------------------------- arrays

  /** The items parsed so far, and what is still to come of `p`. */
  ghost predicate ItemsSoFar(xs: seq<Json>, v: Text, p: Parsed<seq<Json>>) {
    xs != [] && p == Prefixed(Init(xs), Parser.MoreItems(Final(xs), v))
  }

  lemma {:induction false} ItemsHead(s: Text)
    ensures var q := Parser.ParseValue(Skip(s));
      && (q.Fail? ==> Parser.ParseItems(s).Fail?)
      && (q.Malformed? ==> Parser.ParseItems(s).Malformed?)
      && (q.Ok? ==> Parser.ParseItems(s) == Parser.MoreItems(q.value, Skip(q.rest)))
  {
  }

  lemma {:induction false} ItemsStart(s: Text, x: Json, rest: Text)
    requires Parser.ParseValue(Skip(s)) == Ok(x, rest)
    ensures ItemsSoFar([x], Skip(rest), Parser.ParseItems(s))
  {
    ItemsHead(s);
    InitFinal([], x);
    PrefixedNone(Parser.MoreItems(x, Skip(rest)));
  }

  lemma {:induction false} CommaItems(x: Json, v: Text)
    requires Peek(v) == COMMA
    ensures Parser.MoreItems(x, v) == Prefixed([x], Parser.ParseItems(v[1..]))
  {
  }

  /** A comma: the next value decides. */
  lemma {:induction false} ItemsComma(xs: seq<Json>, v: Text, p: Parsed<seq<Json>>)
    requires ItemsSoFar(xs, v, p) && Peek(v) == COMMA && !p.Malformed?
    ensures var q := Parser.ParseValue(Skip(v[1..]));
      !q.Malformed? && (q.Fail? ==> p.Fail?)
  {
    CommaItems(Final(xs), v);
    ItemsHead(v[1..]);
  }

  lemma {:induction false} ItemsNext(xs: seq<Json>, v: Text, p: Parsed<seq<Json>>, x: Json, rest: Text)
    requires ItemsSoFar(xs, v, p) && Peek(v) == COMMA
    requires Parser.ParseValue(Skip(v[1..])) == Ok(x, rest)
    ensures ItemsSoFar(xs + [x], Skip(rest), p)
  {
    var q := Parser.MoreItems(x, Skip(rest));
    CommaItems(Final(xs), v);
    ItemsHead(v[1..]);
    InitFinal(xs, x);
    PrefixedTwice(Init(xs), Final(xs), q);
  }

  /** No comma: the closing bracket, or failure. */
  lemma {:induction false} ItemsEnd(xs: seq<Json>, v: Text, p: Parsed<seq<Json>>)
    requires ItemsSoFar(xs, v, p) && Peek(v) != COMMA
    ensures p == if Peek(v) == RBRACKET then Ok(xs, v[1..]) else Fail
  {
    InitFinal(xs, Final(xs));
  }

  // ------------------------------------------------------------- objects

  /** The members parsed so far, and what is still to come of `p`. */
  ghost predicate MembersSoFar(ms: seq<Member>, v: Text, p: Parsed<seq<Member>>) {
    ms != [] && p == Prefixed(Init(ms), Parser.MoreMembers(Final(ms), v))
  }

  lemma {:induction false} MembersHead(s: Text)
    ensures var q := Parser.ParseMember(s);
      && (q.Fail? ==> Parser.ParseMembers(s).Fail?)
      && (q.Malformed? ==> Parser.ParseMembers(s).Malformed?)
      && (q.Ok? ==> Parser.ParseMembers(s) == Parser.MoreMembers(q.value, Skip(q.rest)))
  {
  }

  lemma {:induction false} MembersStart(s: Text, m: Member, rest: Text)
    requires Parser.ParseMember(s) == Ok(m, rest)
    ensures MembersSoFar([m], Skip(rest), Parser.ParseMembers(s))
  {
    MembersHead(s);
    InitFinal([], m);
    PrefixedNone(Parser.MoreMembers(m, Skip(rest)));
  }

  lemma {:induction false} CommaMembers(m: Member, v: Text)
    requires Peek(v) == COMMA
    ensures Parser.MoreMembers(m, v) == Prefixed([m], Parser.ParseMembers(v[1..]))
  {
  }

  /** A comma: the next member decides. */
  lemma {:induction false} MembersComma(ms: seq<Member>, v: Text, p: Parsed<seq<Member>>)
    requires MembersSoFar(ms, v, p) && Peek(v) == COMMA && !p.Malformed?
    ensures var q := Parser.ParseMember(v[1..]);
      !q.Malformed? && (q.Fail? ==> p.Fail?)
  {
    CommaMembers(Final(ms), v);
    MembersHead(v[1..]);
  }

  lemma {:induction false} MembersNext(ms: seq<Member>, v: Text, p: Parsed<seq<Member>>, m: Member, rest: Text)
    requires MembersSoFar(ms, v, p) && Peek(v) == COMMA
    requires Parser.ParseMember(v[1..]) == Ok(m, rest)
    ensures MembersSoFar(ms + [m], Skip(rest), p)
  {
    var q := Parser.MoreMembers(m, Skip(rest));
    CommaMembers(Final(ms), v);
    MembersHead(v[1..]);
    InitFinal(ms, m);
    PrefixedTwice(Init(ms), Final(ms), q);
  }

  /** No comma: the closing brace, or failure. */
  lemma {:induction false} MembersEnd(ms: seq<Member>, v: Text, p: Parsed<seq<Member>>)
    requires MembersSoFar(ms, v, p) && Peek(v) != COMMA
    ensures p == if Peek(v) == RBRACE then Ok(ms, v[1..]) else Fail
  {
    InitFinal(ms, Final(ms));
  }
}

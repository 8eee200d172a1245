/** What a text of RFC 8259 denotes by the standards its leaves follow, and
    when `cJSON_Parse` returns just that. */
module Standard {
  import opened Bytes
  import opened Numbers
  import opened Doubles
  import opened NumberText
  import opened ParsedResult
  import opened Strings
  import opened JsonValue
  import opened Parser
  import opened Grammar

  // ------------------------------------------------------------- numbers

  /** The digits of a number, with nothing rounded. */
  function Spelled(l: NumLit): nat
    requires l.Lenient()
  {
    Value(l.ints + l.fracs)
  }

  function Signed(neg: bool, n: nat): int { if neg then -(n as int) else n }

  /** The number as it is spelled: an integer when there is no fraction and the
      exponent is zero, else its digits and their power of ten. */
  function StandardNumber(l: NumLit): Json
    requires l.Lenient()
  {
    if l.fracs == [] && ExpValue(l.exp) == 0 then Int(Signed(l.neg, Spelled(l)))
    else Dbl(Signed(l.neg, Spelled(l)), ExpValue(l.exp) - |l.fracs|)
  }

  lemma {:induction false} ZeroInFront(ds: Text)
    requires AllDigits(ds)
    ensures Value([ZERO] + ds) == Value(ds)
  {
    if ds == [] {
      assert [ZERO][..0] == [] && [ZERO] + ds == [ZERO];
    } else {
      var p := ds[..|ds| - 1];
      ZeroInFront(p);
      assert ([ZERO] + ds)[..|ds|] == [ZERO] + p;
    }
  }

  lemma {:induction false} ScannedDigits(l: NumLit)
    requires l.Lenient()
    ensures var c := LitScan(l, []);
      && Value(c.ints + c.fracs) == Spelled(l)
      && c.Exponent() == ExpValue(l.exp) - |l.fracs|
      && (c.IsInt() <==> l.fracs == [] && ExpValue(l.exp) == 0)
  {
    if l.ints != [] && l.ints[0] == ZERO {
      ZeroInFront(l.ints[1..] + l.fracs);
      assert l.ints + l.fracs == [ZERO] + (l.ints[1..] + l.fracs);
    }
  }

  /** The spelled number is the rational the literal stands for. */
  lemma {:induction false} StandardIsRational(l: NumLit)
    requires l.Valid()
    ensures match StandardNumber(l)
      case Int(v) => Rational(l) == v as real
      case Dbl(m, e) => Rational(l) == Scale(m as real, e)
      case _ => false
  {
    ValidIsLenient(l);
    LitScanMeaning(l, []);
    ScannedDigits(l);
    hide Rational;
    if l.neg {
      ScaleNegative(Spelled(l) as real, ExpValue(l.exp) - |l.fracs|);
    }
  }

  lemma {:induction false} ScaleNegative(x: real, e: int)
    ensures Scale(-x, e) == -Scale(x, e)
    decreases if e < 0 then -e else e
  {
    if e > 0 {
      ScaleNegative(10.0 * x, e - 1);
      assert 10.0 * -x == -(10.0 * x);
    } else if e < 0 {
      ScaleNegative(x / 10.0, e + 1);
      assert -x / 10.0 == -(x / 10.0);
    }
  }

  /** A number is stored as it is spelled exactly when its digits survive. */
  lemma {:induction false} NumberIsStandard(l: NumLit)
    requires l.Lenient() && Spelled(l) <= REACH
    ensures NumberValue(LitScan(l, [])) == StandardNumber(l) <==> Survives(Spelled(l))
  {
    var c := LitScan(l, []);
    ScannedDigits(l);
    AccumulateIsExact(c.ints + c.fracs);
    AccumulateBounded(c.ints + c.fracs);
    hide Survives, Accumulate, Spelled;
    StoredSmall(l.neg, c.Mantissa());
  }

  // ----------------------------------------------------------- documents

  /** A literal of units whose surrogates are paired. */
  predicate PairedLiteral(l: Literal) { l.Units? && AllValid(l.us) && Paired(l.us) }

  /** No high surrogate has the lost bit and no escape is zero. */
  predicate Whole(l: Literal) {
    l.Units? && AllValid(l.us) && NoPlaneBit(l.us) && NoZero(l.us)
  }

  /** Every surrogate of every string is paired, and no number has more digits
      than the reach. */
  predicate Interoperable(d: Deriv)
    requires Valid(d)
  {
    match d
    case DNum(l) => Spelled(l) <= REACH
    case DStr(l) => PairedLiteral(l)
    case DArr(_, items) => InteroperableItems(items)
    case DObj(_, ms) => InteroperableMembers(ms)
    case _ => true
  }

  predicate InteroperableItems(items: seq<DItem>)
    requires ValidItems(items)
  {
    items == [] || (Interoperable(items[0].d) && InteroperableItems(items[1..]))
  }

  predicate InteroperableMembers(ms: seq<DMember>)
    requires ValidMembers(ms)
  {
    ms == [] || (PairedLiteral(ms[0].key) && Interoperable(ms[0].d) && InteroperableMembers(ms[1..]))
  }

  /** The value of a text: its strings in UTF-8, its numbers as spelled. */
  function Denotes(d: Deriv): Json
    requires Valid(d) && Interoperable(d)
  {
    match d
    case DNull => Null
    case DBool(b) => Bool(b)
    case DNum(l) => StandardNumber(l)
    case DStr(l) => Str(StandardText(l.us))
    case DArr(_, items) => Arr(DenotesItems(items))
    case DObj(_, ms) => Obj(DenotesMembers(ms))
  }

  function DenotesItems(items: seq<DItem>): seq<Json>
    requires ValidItems(items) && InteroperableItems(items)
  {
    if items == [] then [] else [Denotes(items[0].d)] + DenotesItems(items[1..])
  }

  function DenotesMembers(ms: seq<DMember>): seq<Member>
    requires ValidMembers(ms) && InteroperableMembers(ms)
  {
    if ms == [] then []
    else [Member(StandardText(ms[0].key.us), Denotes(ms[0].d))] + DenotesMembers(ms[1..])
  }

  /** No string or key loses a character, and no number a digit. */
  predicate Lossless(d: Deriv)
    requires Valid(d)
  {
    match d
    case DNum(l) => Survives(Spelled(l))
    case DStr(l) => Whole(l)
    case DArr(_, items) => LosslessItems(items)
    case DObj(_, ms) => LosslessMembers(ms)
    case _ => true
  }

  predicate LosslessItems(items: seq<DItem>)
    requires ValidItems(items)
  {
    items == [] || (Lossless(items[0].d) && LosslessItems(items[1..]))
  }

  predicate LosslessMembers(ms: seq<DMember>)
    requires ValidMembers(ms)
  {
    ms == [] || (Whole(ms[0].key) && Lossless(ms[0].d) && LosslessMembers(ms[1..]))
  }

  lemma {:induction false} MeaningIsStandard(d: Deriv)
    requires Valid(d) && Interoperable(d)
    ensures Meaning(d) == Denotes(d) <==> Lossless(d)
    decreases d
  {
    match d
    case DNum(l) => NumberIsStandard(l);
    case DStr(l) => DecodeIsStandard(l.us);
    case DArr(_, items) => ItemsStandard(items);
    case DObj(_, ms) => MembersStandard(ms);
    case _ =>
  }

  lemma {:induction false} ConsEqual<T>(x: T, xs: seq<T>, y: T, ys: seq<T>)
    ensures [x] + xs == [y] + ys <==> x == y && xs == ys
  {
    if [x] + xs == [y] + ys {
      assert ([x] + xs)[0] == ([y] + ys)[0];
      assert ([x] + xs)[1..] == xs && ([y] + ys)[1..] == ys;
    }
  }

  lemma {:induction false} ItemsStandard(items: seq<DItem>)
    requires ValidItems(items) && InteroperableItems(items)
    ensures ItemMeanings(items) == DenotesItems(items) <==> LosslessItems(items)
    decreases items
  {
    hide Meaning, Denotes, Lossless, Interoperable, Valid;
    if items != [] {
      MeaningIsStandard(items[0].d);
      ItemsStandard(items[1..]);
      ConsEqual(Meaning(items[0].d), ItemMeanings(items[1..]), Denotes(items[0].d), DenotesItems(items[1..]));
    }
  }

  lemma {:induction false} MembersStandard(ms: seq<DMember>)
    requires ValidMembers(ms) && InteroperableMembers(ms)
    ensures MemberMeanings(ms) == DenotesMembers(ms) <==> LosslessMembers(ms)
    decreases ms
  {
    hide Meaning, Denotes, Lossless, Interoperable, Valid, Paired, Decode, StandardText, NoZero, NoPlaneBit;
    if ms != [] {
      DecodeIsStandard(ms[0].key.us);
      MeaningIsStandard(ms[0].d);
      MembersStandard(ms[1..]);
      ConsEqual(Member(ms[0].key.Value(), Meaning(ms[0].d)), MemberMeanings(ms[1..]),
                Member(StandardText(ms[0].key.us), Denotes(ms[0].d)), DenotesMembers(ms[1..]));
    }
  }

  /** `cJSON_Parse` returns a text as it is spelled exactly when no string or
      key in it has a lost bit or a zero, and the digits of every number
      survive. A number with a fraction or an exponent is compared before it is
      scaled: its digits and its power of ten. */
  lemma {:induction false} ParsedAsSpelled(before: Text, d: Deriv, after: Text)
    requires RfcBlank(before) && Rfc(d) && RfcBlank(after)
    requires Valid(d) && Interoperable(d)
    ensures Parse(before + Emit(d, after)) == Ok(Denotes(d), after) <==> Lossless(d)
  {
    hide *;
    RfcTextAccepted(before, d, after);
    MeaningIsStandard(d);
  }

  // ------------------------------------------------ documents of integers

  /** No number has a fraction or an exponent but zero. */
  predicate Integral(d: Deriv)
    requires Valid(d)
  {
    match d
    case DNum(l) => l.fracs == [] && ExpValue(l.exp) == 0
    case DArr(_, items) => IntegralItems(items)
    case DObj(_, ms) => IntegralMembers(ms)
    case _ => true
  }

  predicate IntegralItems(items: seq<DItem>)
    requires ValidItems(items)
  {
    items == [] || (Integral(items[0].d) && IntegralItems(items[1..]))
  }

  predicate IntegralMembers(ms: seq<DMember>)
    requires ValidMembers(ms)
  {
    ms == [] || (Integral(ms[0].d) && IntegralMembers(ms[1..]))
  }

  lemma {:induction false} IntegralDenotes(d: Deriv)
    requires Valid(d) && Interoperable(d)
    ensures DoubleFree(Denotes(d)) <==> Integral(d)
    decreases d
  {
    hide ValidMembers;
    match d
    case DArr(_, items) =>
      IntegralDenotesItems(items);
      assert Denotes(d) == Arr(DenotesItems(items));
    case DObj(_, ms) =>
      IntegralDenotesMembers(ms);
      assert Denotes(d) == Obj(DenotesMembers(ms));
    case _ =>
  }

  lemma {:induction false} IntegralDenotesItems(items: seq<DItem>)
    requires ValidItems(items) && InteroperableItems(items)
    ensures (forall i :: 0 <= i < |DenotesItems(items)| ==> DoubleFree(DenotesItems(items)[i]))
       <==> IntegralItems(items)
    decreases items
  {
    hide Denotes, Interoperable, Valid, Integral, DoubleFree;
    if items != [] {
      IntegralDenotes(items[0].d);
      IntegralDenotesItems(items[1..]);
      var vs, tl := DenotesItems(items), DenotesItems(items[1..]);
      assert vs == [Denotes(items[0].d)] + tl;
      assert forall i :: 0 <= i < |tl| ==> tl[i] == vs[i + 1];
      if forall i :: 0 <= i < |vs| ==> DoubleFree(vs[i]) {
        assert DoubleFree(vs[0]);
      }
    }
  }

  lemma {:induction false} IntegralDenotesMembers(ms: seq<DMember>)
    requires ValidMembers(ms) && InteroperableMembers(ms)
    ensures (forall i :: 0 <= i < |DenotesMembers(ms)| ==> DoubleFree(DenotesMembers(ms)[i].value))
       <==> IntegralMembers(ms)
    decreases ms
  {
    hide Denotes, Interoperable, Valid, Integral, DoubleFree, Paired, StandardText;
    if ms != [] {
      IntegralDenotes(ms[0].d);
      IntegralDenotesMembers(ms[1..]);
      var vs, tl := DenotesMembers(ms), DenotesMembers(ms[1..]);
      assert vs == [Member(StandardText(ms[0].key.us), Denotes(ms[0].d))] + tl;
      assert forall i :: 0 <= i < |tl| ==> tl[i] == vs[i + 1];
      if forall i :: 0 <= i < |vs| ==> DoubleFree(vs[i].value) {
        assert DoubleFree(vs[0].value);
      }
    }
  }

  /** `cJSON_Parse` returns what a text whose numbers are integers denotes
      exactly when no string or key in it has a lost bit or a zero and the
      digits of every number survive; surrogates are paired and numbers within
      reach. */
  lemma {:induction false} ParsedAsStandard(before: Text, d: Deriv, after: Text)
    requires RfcBlank(before) && Rfc(d) && RfcBlank(after)
    requires Valid(d) && Interoperable(d) && Integral(d)
    ensures DoubleFree(Denotes(d))
    ensures Parse(before + Emit(d, after)) == Ok(Denotes(d), after) <==> Lossless(d)
  {
    hide *;
    ParsedAsSpelled(before, d, after);
    IntegralDenotes(d);
  }
}

/** The parser undoes the printer. */
module RoundTrip {
  import opened Bytes
  import opened Numbers
  import opened Doubles
  import opened NumberText
  import opened ParsedResult
  import opened Strings
  import opened JsonValue
  import opened Parser
  import opened Grammar
  import opened Printer

  // --------------------------------------- the derivation of a printed value

  function PrintedDeriv(v: Json, depth: nat, fmt: bool): Deriv
    requires Printable(v)
    decreases v
  {
    match v
    case Null => DNull
    case Bool(b) => DBool(b)
    case Int(n) => DNum(PrintedNum(n))
    case Str(s) => DStr(Units(PrintedUnits(s)))
    case Arr(items) => DArr([], PrintedItems(items, depth + 1, fmt, true))
    case Obj(ms) => DObj(Newline(fmt) + Tabs(fmt, depth), PrintedMembers(ms, depth + 1, fmt))
  }

  function PrintedItems(items: seq<Json>, depth: nat, fmt: bool, first: bool): (r: seq<DItem>)
    requires PrintableItems(items)
    ensures |r| == |items|
    decreases items
  {
    if items == [] then []
    else [DItem(if first then [] else Space(fmt), PrintedDeriv(items[0], depth, fmt), [])]
         + PrintedItems(items[1..], depth, fmt, false)
  }

  function PrintedMembers(ms: seq<Member>, depth: nat, fmt: bool): (r: seq<DMember>)
    requires PrintableMembers(ms) && depth > 0
    ensures |r| == |ms|
    decreases ms
  {
    if ms == [] then []
    else [DMember(Newline(fmt) + Tabs(fmt, depth), Units(PrintedUnits(ms[0].key)), [], OneTab(fmt),
                  PrintedDeriv(ms[0].value, depth, fmt),
                  if |ms| == 1 then Newline(fmt) + Tabs(fmt, depth - 1) else [])]
         + PrintedMembers(ms[1..], depth, fmt)
  }

  lemma {:induction false} TabsBlank(fmt: bool, n: nat)
    ensures RfcBlank(Tabs(fmt, n)) && RfcBlank(Newline(fmt) + Tabs(fmt, n))
    ensures RfcBlank(Space(fmt)) && RfcBlank(OneTab(fmt))
  {
    if fmt && n > 0 {
      TabsBlank(fmt, n - 1);
    }
  }

  lemma {:induction false} PrintedUnitsRfc(s: Text)
    requires NulFree(s)
    ensures RfcUnits(PrintedUnits(s))
  {
    if s != [] {
      PrintedUnitsRfc(s[1..]);
    }
  }

  /** The printer stays within the grammar of RFC 8259. */
  lemma {:induction false} PrintedIsRfc(v: Json, depth: nat, fmt: bool)
    requires Printable(v)
    ensures Rfc(PrintedDeriv(v, depth, fmt))
    decreases v
  {
    match v
    case Str(s) => PrintedUnitsRfc(s);
    case Arr(items) => PrintedItemsRfc(items, depth + 1, fmt, true);
    case Obj(ms) =>
      TabsBlank(fmt, depth);
      PrintedMembersRfc(ms, depth + 1, fmt);
    case _ =>
  }

  lemma {:induction false} PrintedItemsRfc(items: seq<Json>, depth: nat, fmt: bool, first: bool)
    requires PrintableItems(items)
    ensures RfcItems(PrintedItems(items, depth, fmt, first))
    decreases items
  {
    if items != [] {
      PrintedIsRfc(items[0], depth, fmt);
      PrintedItemsRfc(items[1..], depth, fmt, false);
      var ds := PrintedItems(items, depth, fmt, first);
      assert ds[1..] == PrintedItems(items[1..], depth, fmt, false);
      TabsBlank(fmt, 0);
    }
  }

  lemma {:induction false} PrintedMembersRfc(ms: seq<Member>, depth: nat, fmt: bool)
    requires PrintableMembers(ms) && depth > 0
    ensures RfcMembers(PrintedMembers(ms, depth, fmt))
    decreases ms
  {
    if ms != [] {
      PrintedIsRfc(ms[0].value, depth, fmt);
      PrintedMembersRfc(ms[1..], depth, fmt);
      FirstMemberFramed(ms, depth, fmt);
      var ds := PrintedMembers(ms, depth, fmt);
      assert ds[1..] == PrintedMembers(ms[1..], depth, fmt);
    }
  }

  lemma {:induction false} FirstMemberFramed(ms: seq<Member>, depth: nat, fmt: bool)
    requires PrintableMembers(ms) && depth > 0 && ms != []
    ensures PrintedMembers(ms, depth, fmt)[0].RfcFramed()
  {
    var w, key, o := Newline(fmt) + Tabs(fmt, depth), Units(PrintedUnits(ms[0].key)), OneTab(fmt);
    var d := PrintedDeriv(ms[0].value, depth, fmt);
    var after := if |ms| == 1 then Newline(fmt) + Tabs(fmt, depth - 1) else [];
    PrintedUnitsRfc(ms[0].key);
    TabsBlank(fmt, depth);
    TabsBlank(fmt, depth - 1);
    assert DMember(w, key, [], o, d, after).RfcFramed();
  }

  lemma {:induction false} PrintedIsValid(v: Json, depth: nat, fmt: bool)
    requires Printable(v)
    ensures Valid(PrintedDeriv(v, depth, fmt))
  {
    PrintedIsRfc(v, depth, fmt);
    RfcIsValid(PrintedDeriv(v, depth, fmt));
  }

  /** The printer writes a text of the grammar. */
  lemma {:induction false} PrintIsEmit(v: Json, depth: nat, fmt: bool, k: Text)
    requires Printable(v)
    ensures Print(v, depth, fmt) + k == Emit(PrintedDeriv(v, depth, fmt), k)
    decreases v
  {
    match v
    case Null =>
    case Bool(b) =>
    case Int(n) => IntTextIsLiteral(n, k);
    case Str(s) => QuotedIsBody(s, k);
    case Arr(items) =>
      PrintItemsIsEmit(items, depth + 1, fmt, true, [RBRACKET] + k);
      PrintArrayIsEmit(items, depth, fmt, k);
    case Obj(ms) =>
      PrintMembersIsEmit(ms, depth + 1, fmt, [RBRACE] + k);
      PrintObjectIsEmit(ms, depth, fmt, k);
  }

  lemma {:induction false} PrintArrayIsEmit(items: seq<Json>, depth: nat, fmt: bool, k: Text)
    requires PrintableItems(items)
    requires PrintItems(items, depth + 1, fmt) + ([RBRACKET] + k)
          == if items == [] then [] + ([RBRACKET] + k)
             else EmitItems(PrintedItems(items, depth + 1, fmt, true), [RBRACKET] + k)
    ensures Print(Arr(items), depth, fmt) + k == Emit(PrintedDeriv(Arr(items), depth, fmt), k)
  {
    ArrayShape(items, depth, fmt, k);
    var ds := PrintedItems(items, depth + 1, fmt, true);
    assert PrintedDeriv(Arr(items), depth, fmt) == DArr([], ds);
    assert ds == [] <==> items == [];
  }

  lemma {:induction false} PrintObjectIsEmit(ms: seq<Member>, depth: nat, fmt: bool, k: Text)
    requires PrintableMembers(ms)
    requires Newline(fmt) + PrintMembers(ms, depth + 1, fmt) + (Tabs(fmt, depth) + ([RBRACE] + k))
          == if ms == [] then Newline(fmt) + Tabs(fmt, depth) + ([RBRACE] + k)
             else EmitMembers(PrintedMembers(ms, depth + 1, fmt), [RBRACE] + k)
    ensures Print(Obj(ms), depth, fmt) + k == Emit(PrintedDeriv(Obj(ms), depth, fmt), k)
  {
    ObjectShape(ms, depth, fmt, k);
    EmitObject(Newline(fmt) + Tabs(fmt, depth), PrintedMembers(ms, depth + 1, fmt), k);
  }

  lemma {:induction false} EmitObject(w: Text, ds: seq<DMember>, k: Text)
    ensures Emit(DObj(w, ds), k)
         == [LBRACE] + if ds == [] then w + ([RBRACE] + k) else EmitMembers(ds, [RBRACE] + k)
  {
  }

  lemma {:induction false} ArrayShape(items: seq<Json>, depth: nat, fmt: bool, k: Text)
    requires PrintableItems(items)
    ensures Print(Arr(items), depth, fmt) + k
         == [LBRACKET] + (PrintItems(items, depth + 1, fmt) + ([RBRACKET] + k))
  {
    Assoc([LBRACKET] + PrintItems(items, depth + 1, fmt), [RBRACKET], k);
    Assoc([LBRACKET], PrintItems(items, depth + 1, fmt), [RBRACKET] + k);
  }

  lemma {:induction false} ObjectShape(ms: seq<Member>, depth: nat, fmt: bool, k: Text)
    requires PrintableMembers(ms)
    ensures Print(Obj(ms), depth, fmt) + k
         == [LBRACE] + (Newline(fmt) + PrintMembers(ms, depth + 1, fmt) + (Tabs(fmt, depth) + ([RBRACE] + k)))
  {
    var n, p, t := Newline(fmt), PrintMembers(ms, depth + 1, fmt), Tabs(fmt, depth);
    Assoc([LBRACE] + n + p + t, [RBRACE], k);
    Assoc([LBRACE] + n + p, t, [RBRACE] + k);
    Assoc([LBRACE], n, p);
    Assoc([LBRACE], n + p, t + ([RBRACE] + k));
  }

  lemma {:induction false} PrintItemsIsEmit(items: seq<Json>, depth: nat, fmt: bool, first: bool, k: Text)
    requires PrintableItems(items)
    ensures var s := PrintItems(items, depth, fmt) + k;
      (if first then s else Space(fmt) + s)
      == if items == [] then (if first then [] else Space(fmt)) + k
         else EmitItems(PrintedItems(items, depth, fmt, first), k)
    decreases items
  {
    if items == [] {
      assert [] + k == k;
    } else {
      var ds := PrintedItems(items, depth, fmt, first);
      assert ds[1..] == PrintedItems(items[1..], depth, fmt, false);
      var p := Print(items[0], depth, fmt);
      var s := PrintItems(items, depth, fmt) + k;
      assert first ==> [] + s == s;
      if |items| == 1 {
        assert [] + k == k;
        PrintIsEmit(items[0], depth, fmt, k);
      } else {
        var q := PrintItems(items[1..], depth, fmt);
        var tail := [COMMA] + (Space(fmt) + (q + k));
        assert [] + tail == tail;
        PrintItemsIsEmit(items[1..], depth, fmt, false, k);
        PrintIsEmit(items[0], depth, fmt, tail);
        Assoc(p + [COMMA] + Space(fmt), q, k);
        Assoc(p + [COMMA], Space(fmt), q + k);
        Assoc(p, [COMMA], Space(fmt) + (q + k));
      }
    }
  }

  lemma {:induction false} PrintMemberIsEmit(m: Member, depth: nat, fmt: bool, after: Text, k: Text)
    requires NulFree(m.key) && Printable(m.value)
    ensures Newline(fmt) + (PrintMember(m, depth, fmt) + (after + k))
         == EmitMember(DMember(Newline(fmt) + Tabs(fmt, depth), Units(PrintedUnits(m.key)), [], OneTab(fmt),
                               PrintedDeriv(m.value, depth, fmt), after), k)
    decreases m
  {
    PrintIsEmit(m.value, depth, fmt, after + k);
    var t, q, o, p := Tabs(fmt, depth), Quoted(m.key), OneTab(fmt), Print(m.value, depth, fmt);
    var tail := [COLON] + (o + (p + (after + k)));
    QuotedIsBody(m.key, tail);
    assert [] + tail == tail;
    Assoc(t + q + [COLON] + o, p, after + k);
    Assoc(t + q + [COLON], o, p + (after + k));
    Assoc(t + q, [COLON], o + (p + (after + k)));
    Assoc(t, q, tail);
    Assoc(Newline(fmt), t, q + tail);
  }

  lemma {:induction false} PrintMembersIsEmit(ms: seq<Member>, depth: nat, fmt: bool, k: Text)
    requires PrintableMembers(ms) && depth > 0
    ensures Newline(fmt) + PrintMembers(ms, depth, fmt) + (Tabs(fmt, depth - 1) + k)
         == if ms == [] then Newline(fmt) + Tabs(fmt, depth - 1) + k
            else EmitMembers(PrintedMembers(ms, depth, fmt), k)
    decreases ms
  {
    if ms == [] {
      Assoc(Newline(fmt), Tabs(fmt, depth - 1), k);
    } else {
      var ds := PrintedMembers(ms, depth, fmt);
      assert ds[1..] == PrintedMembers(ms[1..], depth, fmt);
      var n, t, p, q := Newline(fmt), Tabs(fmt, depth - 1), PrintMember(ms[0], depth, fmt),
                        PrintMembers(ms[1..], depth, fmt);
      if |ms| == 1 {
        PrintMemberIsEmit(ms[0], depth, fmt, n + t, k);
        Regroup(n, p, [], [], t, k);
      } else {
        PrintMembersIsEmit(ms[1..], depth, fmt, k);
        PrintMemberIsEmit(ms[0], depth, fmt, [], [COMMA] + (n + q + (t + k)));
        Regroup(n, p, [COMMA], q, t, k);
      }
    }
  }

  lemma {:induction false} Regroup(n: Text, p: Text, c: Text, q: Text, t: Text, k: Text)
    ensures n + (p + c + n + q) + (t + k) == n + (p + ([] + (c + (n + q + (t + k)))))
    ensures q == [] && c == [] ==> n + (p + c + n + q) + (t + k) == n + (p + (n + t + k))
  {
  }

  // ------------------------------------------------- the value read back

  /** The value with every integer replaced by what the double accumulator of
      `parse_number` makes of its digits. */
  function RereadAll(v: Json): Json {
    match v
    case Int(n) => Int(Reread(n))
    case Arr(items) => Arr(RereadItems(items))
    case Obj(ms) => Obj(RereadMembers(ms))
    case _ => v
  }

  function RereadItems(items: seq<Json>): (r: seq<Json>)
    ensures |r| == |items|
    ensures forall i :: 0 <= i < |items| ==> r[i] == RereadAll(items[i])
  {
    if items == [] then [] else [RereadAll(items[0])] + RereadItems(items[1..])
  }

  function RereadMembers(ms: seq<Member>): (r: seq<Member>)
    ensures |r| == |ms|
    ensures forall i :: 0 <= i < |ms| ==> r[i] == Member(ms[i].key, RereadAll(ms[i].value))
  {
    if ms == [] then [] else [Member(ms[0].key, RereadAll(ms[0].value))] + RereadMembers(ms[1..])
  }

  lemma {:induction false} MeaningOfPrinted(v: Json, depth: nat, fmt: bool)
    requires Printable(v) && Valid(PrintedDeriv(v, depth, fmt))
    ensures Meaning(PrintedDeriv(v, depth, fmt)) == RereadAll(v)
    decreases v
  {
    match v
    case Int(n) =>
      LitScanOfPrinted(n, []);
    case Str(s) => DecodeOfPrinted(s);
    case Arr(items) => MeaningOfItems(items, depth + 1, fmt, true);
    case Obj(ms) => MeaningOfMembers(ms, depth + 1, fmt);
    case _ =>
  }

  lemma {:induction false} MeaningOfItems(items: seq<Json>, depth: nat, fmt: bool, first: bool)
    requires PrintableItems(items) && ValidItems(PrintedItems(items, depth, fmt, first))
    ensures ItemMeanings(PrintedItems(items, depth, fmt, first)) == RereadItems(items)
    decreases items
  {
    if items != [] {
      var ds := PrintedItems(items, depth, fmt, first);
      assert ds[1..] == PrintedItems(items[1..], depth, fmt, false);
      MeaningOfPrinted(items[0], depth, fmt);
      MeaningOfItems(items[1..], depth, fmt, false);
    }
  }

  lemma {:induction false} MeaningOfMembers(ms: seq<Member>, depth: nat, fmt: bool)
    requires PrintableMembers(ms) && depth > 0 && ValidMembers(PrintedMembers(ms, depth, fmt))
    ensures MemberMeanings(PrintedMembers(ms, depth, fmt)) == RereadMembers(ms)
    decreases ms
  {
    if ms != [] {
      var ds := PrintedMembers(ms, depth, fmt);
      assert ds[1..] == PrintedMembers(ms[1..], depth, fmt);
      DecodeOfPrinted(ms[0].key);
      MeaningOfPrinted(ms[0].value, depth, fmt);
      MeaningOfMembers(ms[1..], depth, fmt);
    }
  }

  /** Within reach a value is read back unchanged exactly when every integer in
      it survives. */
  lemma {:induction false} RereadAllIsExact(v: Json)
    requires AllWithinReach(v)
    ensures RereadAll(v) == v <==> AllExact(v)
    decreases v
  {
    match v
    case Int(n) => RereadIsExact(n);
    case Arr(items) =>
      forall i | 0 <= i < |items|
        ensures RereadAll(items[i]) == items[i] <==> AllExact(items[i])
      {
        RereadAllIsExact(items[i]);
      }
      assert RereadItems(items) == items <==> forall i :: 0 <= i < |items| ==> RereadAll(items[i]) == items[i];
    case Obj(ms) =>
      forall i | 0 <= i < |ms|
        ensures RereadAll(ms[i].value) == ms[i].value <==> AllExact(ms[i].value)
      {
        RereadAllIsExact(ms[i].value);
      }
      assert RereadMembers(ms) == ms
        <==> forall i :: 0 <= i < |ms| ==> RereadAll(ms[i].value) == ms[i].value;
    case _ =>
  }

  /** At any magnitude a value that is read back unchanged holds only integers
      that a double holds. */
  lemma {:induction false} RereadAllIsDouble(v: Json)
    requires RereadAll(v) == v
    ensures AllDoubles(v)
    decreases v
  {
    hide Reread, IsDouble;
    match v
    case Int(n) => RereadIsDouble(n);
    case Arr(items) =>
      forall i | 0 <= i < |items| ensures AllDoubles(items[i]) {
        assert RereadItems(items)[i] == items[i];
        RereadAllIsDouble(items[i]);
      }
    case Obj(ms) =>
      forall i | 0 <= i < |ms| ensures AllDoubles(ms[i].value) {
        assert RereadMembers(ms)[i] == ms[i];
        RereadAllIsDouble(ms[i].value);
      }
    case _ =>
  }

  // ------------------------------------------------------------ theorems

  /** For every double-free value, at every depth, in both formats, and
      whatever text follows that does not continue a number: parsing the
      printed text returns the value, its integers as a double holds them, and
      stops exactly where the printed text ends. */
  lemma {:induction false} ParseOfPrint(v: Json, depth: nat, fmt: bool, k: Text)
    requires Printable(v)
    requires v.Int? ==> Stops(k)
    ensures ParseValue(Print(v, depth, fmt) + k) == Ok(RereadAll(v), k)
  {
    var d := PrintedDeriv(v, depth, fmt);
    PrintedIsValid(v, depth, fmt);
    PrintIsEmit(v, depth, fmt, k);
    if v.Int? {
      StopsEnds(PrintedNum(v.v), k);
    }
    PrintedIsRfc(v, depth, fmt);
    RfcReads(d, k);
    ParseComplete(d, k);
    MeaningOfPrinted(v, depth, fmt);
  }

  /** The first integer that does not survive: 2^53 + 1. */
  lemma {:induction false} FirstInexactInteger(depth: nat, fmt: bool)
    ensures ParseValue(Print(Int(TWO53 + 1), depth, fmt)) != Ok(Int(TWO53 + 1), [])
  {
    var v := Int(TWO53 + 1);
    SurvivesIs(TWO53 + 1);
    assert !AllExact(v) && AllWithinReach(v);
    hide AllExact, Print;
    assert Print(v, depth, fmt) + [] == Print(v, depth, fmt);
    RoundTripExact(v, depth, fmt, []);
  }

  /** The round trip is exact on every tree whose integers survive, and on no
      other tree with integers within reach. */
  lemma {:induction false} RoundTripExact(v: Json, depth: nat, fmt: bool, k: Text)
    requires Printable(v) && AllWithinReach(v)
    requires v.Int? ==> Stops(k)
    ensures ParseValue(Print(v, depth, fmt) + k) == Ok(v, k) <==> AllExact(v)
  {
    ParseOfPrint(v, depth, fmt, k);
    RereadAllIsExact(v);
  }

  /** At any magnitude the round trip is exact only on trees whose integers a
      double holds. */
  lemma {:induction false} RoundTripNeedsDoubles(v: Json, depth: nat, fmt: bool, k: Text)
    requires Printable(v)
    requires v.Int? ==> Stops(k)
    requires ParseValue(Print(v, depth, fmt) + k) == Ok(v, k)
    ensures AllDoubles(v)
  {
    ParseOfPrint(v, depth, fmt, k);
    RereadAllIsDouble(v);
  }

  lemma {:induction false} ExactIsWithinReach(v: Json)
    requires AllExact(v)
    ensures AllWithinReach(v)
    decreases v
  {
    match v
    case Arr(items) =>
      forall i | 0 <= i < |items| ensures AllWithinReach(items[i]) { ExactIsWithinReach(items[i]); }
    case Obj(ms) =>
      forall i | 0 <= i < |ms| ensures AllWithinReach(ms[i].value) { ExactIsWithinReach(ms[i].value); }
    case _ =>
  }

  lemma {:induction false} PrintHead(v: Json, depth: nat, fmt: bool)
    requires Printable(v)
    ensures Skip(Print(v, depth, fmt)) == Print(v, depth, fmt)
  {
    var s := Print(v, depth, fmt);
    PrintedIsValid(v, depth, fmt);
    PrintIsEmit(v, depth, fmt, []);
    assert s + [] == s;
    EmitHead(PrintedDeriv(v, depth, fmt), []);
  }

  /** `cJSON_Parse` of a printed value. */
  lemma {:induction false} ParseOfText(v: Json, fmt: bool)
    requires Printable(v)
    ensures Parse(Print(v, 0, fmt)) == Ok(RereadAll(v), [])
    ensures AllExact(v) ==> Parse(Print(v, 0, fmt)) == Ok(v, [])
  {
    var s := Print(v, 0, fmt);
    assert s + [] == s;
    PrintHead(v, 0, fmt);
    ParseOfPrint(v, 0, fmt, []);
    if AllExact(v) {
      ExactIsWithinReach(v);
      RereadAllIsExact(v);
    }
  }

  /** The formatted and the unformatted text denote the same value. */
  lemma {:induction false} FormatIndependence(v: Json)
    requires Printable(v)
    ensures Parse(Print(v, 0, true)) == Parse(Print(v, 0, false))
  {
    ParseOfText(v, true);
    ParseOfText(v, false);
  }
}

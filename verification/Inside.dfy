/** Parsing stays within the C string: no cursor ever stands behind a NUL. */
module Inside {
  import opened Bytes
  import opened Numbers
  import opened ParsedResult
  import opened Strings
  import opened JsonValue
  import opened Parser

  /** A cursor that started at `s` can stand at `r` without having gone over a
      NUL. */
  predicate StepsTo(s: Text, r: Text) {
    IsSuffix(r, s) && forall i :: 0 <= i < |s| - |r| ==> s[i] != 0
  }

  lemma {:induction false} StepsTrans(a: Text, b: Text, c: Text)
    requires StepsTo(a, b) && StepsTo(b, c)
    ensures StepsTo(a, c)
  {
    SuffixTrans(c, b, a);
    forall i | 0 <= i < |a| - |c| ensures a[i] != 0 {
      if i >= |a| - |b| {
        assert a[i] == b[i - (|a| - |b|)];
      }
    }
  }

  lemma {:induction false} OneStep(s: Text)
    requires Peek(s) != 0
    ensures StepsTo(s, s[1..])
  {
  }

  lemma {:induction false} OverBlanks(s: Text)
    ensures StepsTo(s, Skip(s))
  {
    SkipIs(s);
  }

  lemma {:induction false} OverDigits(s: Text)
    ensures StepsTo(s, s[|Digits(s)|..])
  {
    var ds := Digits(s);
    forall i | 0 <= i < |ds| ensures s[i] != 0 {
      assert s[i] == ds[i];
    }
  }

  // -------------------------------------------------------------- numbers

  lemma {:induction false} OverInteger(s: Text)
    ensures StepsTo(s, ScanInteger(s).1)
  {
    var s1 := if Peek(s) == ZERO then s[1..] else s;
    OverDigits(s1);
    assert s1[0..] == s1;
    StepsTrans(s, s1, ScanInteger(s).1);
  }

  lemma {:induction false} OverFraction(s: Text)
    ensures StepsTo(s, ScanFraction(s).1)
  {
    if Peek(s) == DOT {
      OverDigits(s[1..]);
      StepsTrans(s, s[1..], s[1..][|Digits(s[1..])|..]);
    }
  }

  lemma {:induction false} OverSigned(s: Text)
    ensures StepsTo(s, ScanSigned(s).2)
  {
    var s1 := if Peek(s) == PLUS || Peek(s) == MINUS then s[1..] else s;
    OverDigits(s1);
    StepsTrans(s, s1, s1[|Digits(s1)|..]);
  }

  lemma {:induction false} OverExponent(s: Text)
    ensures StepsTo(s, ScanExponent(s).2)
  {
    hide ScanSigned;
    if Peek(s) == 101 || Peek(s) == 69 {
      OverSigned(s[1..]);
      StepsTrans(s, s[1..], ScanSigned(s[1..]).2);
    }
  }

  lemma {:induction false} OverMagnitude(neg: bool, s: Text)
    ensures StepsTo(s, ScanMagnitude(neg, s).rest)
  {
    hide StepsTo, ScanInteger, ScanFraction, ScanExponent;
    var s1 := ScanInteger(s).1;
    var s2 := ScanFraction(s1).1;
    OverInteger(s);
    OverFraction(s1);
    OverExponent(s2);
    StepsTrans(s, s1, s2);
    StepsTrans(s, s2, ScanExponent(s2).2);
  }

  lemma {:induction false} OverNumber(s: Text)
    ensures StepsTo(s, ScanNumber(s).rest)
  {
    hide StepsTo, ScanMagnitude;
    if Peek(s) == MINUS {
      OneStep(s);
      OverMagnitude(true, s[1..]);
      StepsTrans(s, s[1..], ScanMagnitude(true, s[1..]).rest);
    } else {
      OverMagnitude(false, s);
    }
  }

  // -------------------------------------------------------------- strings

  /** One turn of the decoding loop; the four bytes behind `\u` are there. */
  lemma {:induction false} OverTurn(s: Text, uc: Unsigned, uc2: Unsigned)
    requires Peek(s) != 0 && s[0] != QUOTE && LoopTurn(s, uc, uc2).Turn?
    ensures StepsTo(s, s[LoopTurn(s, uc, uc2).size..])
  {
    hide CodeTurn, Unescape;
    if s[0] == BACKSLASH && s[1] == 117 {
      OverCode(s, uc, uc2);
    }
  }

  lemma {:induction false} OverCode(s: Text, uc: Unsigned, uc2: Unsigned)
    requires |s| >= 2 && s[0] == BACKSLASH && s[1] == 117 && CodeTurn(s, uc, uc2).Turn?
    ensures StepsTo(s, s[CodeTurn(s, uc, uc2).size..])
  {
    hide CodeTurn, HasFour, StepsTo;
    FourBytes(s, uc, uc2);
    OverSix(s);
    if CodeTurn(s, uc, uc2).size == 12 {
      OverSix(s[6..]);
      assert s[6..][6..] == s[12..];
      StepsTrans(s, s[6..], s[12..]);
    }
  }

  lemma {:induction false} OverSix(s: Text)
    requires |s| >= 6 && s[0] != 0 && s[1] != 0 && s[2] != 0 && s[3] != 0 && s[4] != 0 && s[5] != 0
    ensures StepsTo(s, s[6..])
  {
    assert |s| - |s[6..]| == 6;
  }

  /** The bytes a `\u` needs are there. */
  lemma {:induction false} FourBytes(s: Text, uc: Unsigned, uc2: Unsigned)
    requires |s| >= 2 && CodeTurn(s, uc, uc2).Turn?
    ensures var n := CodeTurn(s, uc, uc2).size;
      && (n == 6 || n == 12) && s[2] != 0 && s[3] != 0 && s[4] != 0 && s[5] != 0
      && (n == 12 ==> s[6] != 0 && s[7] != 0 && s[8] != 0 && s[9] != 0 && s[10] != 0 && s[11] != 0)
  {
    hide Assigned, Shifted;
    assert HasFour(s[2..]);
  }

  lemma {:induction false} OverLoop(s: Text, uc: Unsigned, uc2: Unsigned)
    requires Loop(s, uc, uc2).Written?
    ensures StepsTo(s, Loop(s, uc, uc2).rest)
    decreases |s|
  {
    hide LoopTurn, StepsTo;
    if Peek(s) == 0 || s[0] == QUOTE {
      Stands(s);
    } else {
      var t := LoopTurn(s, uc, uc2);
      OverTurn(s, uc, uc2);
      OverLoop(s[t.size..], t.uc, t.uc2);
      StepsTrans(s, s[t.size..], Loop(s[t.size..], t.uc, t.uc2).rest);
    }
  }

  lemma {:induction false} Stands(s: Text)
    ensures StepsTo(s, s)
  {
  }

  lemma {:induction false} OverString(s: Text)
    requires ParseString(s).Ok?
    ensures StepsTo(s, ParseString(s).rest)
  {
    hide Loop, Raw, StepsTo;
    var d := Loop(s[1..], Unset, Unset);
    OneStep(s);
    OverLoop(s[1..], Unset, Unset);
    StepsTrans(s, s[1..], d.rest);
    if Peek(d.rest) == QUOTE {
      OneStep(d.rest);
      StepsTrans(s, d.rest, d.rest[1..]);
    }
  }

  // --------------------------------------------------------------- values

  lemma {:induction false} OverWord(s: Text)
    ensures Starts(s, NULL_TEXT) ==> StepsTo(s, s[4..])
    ensures Starts(s, FALSE_TEXT) ==> StepsTo(s, s[5..])
    ensures Starts(s, TRUE_TEXT) ==> StepsTo(s, s[4..])
  {
    if Starts(s, NULL_TEXT) { assert forall i :: 0 <= i < 4 ==> s[i] == NULL_TEXT[i] != 0; }
    if Starts(s, FALSE_TEXT) { assert forall i :: 0 <= i < 5 ==> s[i] == FALSE_TEXT[i] != 0; }
    if Starts(s, TRUE_TEXT) { assert forall i :: 0 <= i < 4 ==> s[i] == TRUE_TEXT[i] != 0; }
  }

  /** Whatever is parsed, the cursor has not gone over a NUL. */
  lemma {:induction false} ParseStaysInside(s: Text)
    requires ParseValue(s).Ok?
    ensures StepsTo(s, ParseValue(s).rest)
    decreases |s|, 1
  {
    hide StepsTo, Starts, ParseString, ParseArray, ParseObject, ScanNumber;
    if Starts(s, NULL_TEXT) || Starts(s, FALSE_TEXT) || Starts(s, TRUE_TEXT) {
      OverWord(s);
    } else if Peek(s) == QUOTE {
      OverString(s);
    } else if StartsNumber(s) {
      OverNumber(s);
    } else if Peek(s) == LBRACKET {
      OverArray(s);
    } else {
      OverObject(s);
    }
  }

  lemma {:induction false} OverArray(s: Text)
    requires Peek(s) == LBRACKET && ParseArray(s).Ok?
    ensures StepsTo(s, ParseArray(s).rest)
    decreases |s|, 0
  {
    hide StepsTo, ParseItems, Skip;
    OpenInside(s);
    var v := Skip(s[1..]);
    if Peek(v) == RBRACKET {
      OneStep(v);
      StepsTrans(s, v, v[1..]);
    } else {
      OverItems(v);
      StepsTrans(s, v, ParseItems(v).rest);
    }
  }

  /** A byte that is no NUL, and the blanks behind it. */
  lemma {:induction false} OpenInside(s: Text)
    requires Peek(s) != 0
    ensures StepsTo(s, Skip(s[1..]))
  {
    hide StepsTo;
    OneStep(s);
    OverBlanks(s[1..]);
    StepsTrans(s, s[1..], Skip(s[1..]));
  }

  lemma {:induction false} OverItems(s: Text)
    requires ParseItems(s).Ok?
    ensures StepsTo(s, ParseItems(s).rest)
    decreases |s|, 2
  {
    hide StepsTo, ParseValue, Skip;
    var k := ParseValue(Skip(s)).rest;
    var v := Skip(k);
    OverBlanks(s);
    ParseStaysInside(Skip(s));
    StepsTrans(s, Skip(s), k);
    OverBlanks(k);
    StepsTrans(s, k, v);
    OneStep(v);
    if Peek(v) == COMMA {
      OverItems(v[1..]);
      StepsTrans(v, v[1..], ParseItems(v[1..]).rest);
    }
    StepsTrans(s, v, ParseItems(s).rest);
  }

  lemma {:induction false} OverObject(s: Text)
    requires Peek(s) == LBRACE && ParseObject(s).Ok?
    ensures StepsTo(s, ParseObject(s).rest)
    decreases |s|, 0
  {
    hide StepsTo, ParseMembers, Skip;
    OpenInside(s);
    var v := Skip(s[1..]);
    if Peek(v) == RBRACE {
      OneStep(v);
      StepsTrans(s, v, v[1..]);
    } else {
      OverMembers(v);
      StepsTrans(s, v, ParseMembers(v).rest);
    }
  }

  lemma {:induction false} OverMember(s: Text)
    requires ParseMember(s).Ok?
    ensures StepsTo(s, ParseMember(s).rest)
    decreases |s|, 1
  {
    hide StepsTo, ParseString, ParseValue, Skip;
    var k := ParseString(Skip(s)).rest;
    var v := Skip(k);
    OverBlanks(s);
    OverString(Skip(s));
    StepsTrans(s, Skip(s), k);
    OverBlanks(k);
    StepsTrans(s, k, v);
    OpenInside(v);
    ParseStaysInside(Skip(v[1..]));
    StepsTrans(s, v, Skip(v[1..]));
    StepsTrans(s, Skip(v[1..]), ParseMember(s).rest);
  }

  lemma {:induction false} OverMembers(s: Text)
    requires ParseMembers(s).Ok?
    ensures StepsTo(s, ParseMembers(s).rest)
    decreases |s|, 2
  {
    hide StepsTo, ParseMember, Skip;
    var k := ParseMember(s).rest;
    var v := Skip(k);
    OverMember(s);
    OverBlanks(k);
    StepsTrans(s, k, v);
    OneStep(v);
    if Peek(v) == COMMA {
      OverMembers(v[1..]);
      StepsTrans(v, v[1..], ParseMembers(v[1..]).rest);
    }
    StepsTrans(s, v, ParseMembers(s).rest);
  }
}

/** The numbers of section 6 of RFC 8259, and what `parse_number` makes of
    them. */
module NumberText {
  import opened Bytes
  import opened Numbers
  import opened Doubles

  datatype ExpSign = Unsigned | Plus | Minus

  datatype ExpPart = NoExp | Exp(upper: bool, sign: ExpSign, digits: Text)

  /** `[ minus ] int [ frac ] [ exp ]`; `fracs` is empty when there is no
      fraction. */
  datatype NumLit = NumLit(neg: bool, ints: Text, fracs: Text, exp: ExpPart)
  {
    predicate Valid() {
      && ints != [] && AllDigits(ints) && (ints[0] == ZERO ==> |ints| == 1)
      && AllDigits(fracs)
      && (exp.Exp? ==> exp.digits != [] && AllDigits(exp.digits))
    }

    /** What `parse_number` takes for a number: besides those of the grammar,
        a minus with no digits after it, a zero in front of other digits, and
        an exponent without digits. */
    predicate Lenient() {
      && IntShape(ints) && AllDigits(fracs) && (exp.Exp? ==> AllDigits(exp.digits))
      && (neg || ints != [])
    }
  }

  /** No digits, or digits of which only the first may be a superfluous zero. */
  predicate IntShape(ints: Text) {
    AllDigits(ints) && (|ints| > 1 && ints[0] == ZERO ==> ints[1] != ZERO)
  }

  function ExpText(e: ExpPart, k: Text): Text {
    match e
    case NoExp => k
    case Exp(upper, sign, digits) =>
      [if upper then 69 else 101] + SignedText(sign, digits + k)
  }

  function SignedText(sign: ExpSign, k: Text): Text {
    match sign
    case Unsigned => k
    case Plus => [PLUS] + k
    case Minus => [MINUS] + k
  }

  function FracText(ds: Text, k: Text): Text {
    if ds == [] then k else [DOT] + (ds + k)
  }

  function NumText(l: NumLit, k: Text): Text {
    if l.neg then [MINUS] + MagnitudeText(l, k) else MagnitudeText(l, k)
  }

  function MagnitudeText(l: NumLit, k: Text): Text {
    l.ints + FracText(l.fracs, ExpText(l.exp, k))
  }

  /** `k` cannot be read as more of a number. */
  predicate Stops(k: Text) {
    !IsDigit(Peek(k)) && Peek(k) != DOT && Peek(k) != 101 && Peek(k) != 69
  }

  /** What follows the digits in front of the point is no more of them. */
  predicate IntEnds(ints: Text, k: Text) {
    if ints == [ZERO] then !(49 <= Peek(k) <= 57) else !IsDigit(Peek(k))
  }

  predicate FracEnds(ds: Text, k: Text) {
    if ds == [] then !(Peek(k) == DOT && IsDigit(Peek(k[1..]))) else !IsDigit(Peek(k))
  }

  predicate ExpEnds(e: ExpPart, k: Text) {
    match e
    case NoExp => Peek(k) != 101 && Peek(k) != 69
    case Exp(_, sign, digits) =>
      !IsDigit(Peek(k)) && (sign.Unsigned? && digits == [] ==> Peek(k) != PLUS && Peek(k) != MINUS)
  }

  /** `k` cannot be read as more of this very literal. */
  predicate Ends(l: NumLit, k: Text) {
    && ExpEnds(l.exp, k)
    && (l.exp.NoExp? ==> FracEnds(l.fracs, k))
    && (l.exp.NoExp? && l.fracs == [] ==> IntEnds(l.ints, k))
  }

  lemma {:induction false} StopsEnds(l: NumLit, k: Text)
    requires l.Valid() && Stops(k)
    ensures Ends(l, k)
  {
  }

  lemma {:induction false} ValidIsLenient(l: NumLit)
    requires l.Valid()
    ensures l.Lenient()
  {
  }

  /** What scanning a literal yields: a leading zero is skipped and adds no
      digit. */
  function LitScan(l: NumLit, k: Text): (r: Scan)
    requires l.Lenient()
    ensures r.Valid()
  {
    Scan(l.neg,
         if l.ints != [] && l.ints[0] == ZERO then l.ints[1..] else l.ints,
         l.fracs,
         l.exp.Exp? && l.exp.sign.Minus?,
         if l.exp.Exp? then l.exp.digits else [],
         k)
  }

  /** A run of digits and what ends it. */
  lemma {:induction false} RunEnds(ds: Text, k: Text)
    requires AllDigits(ds) && !IsDigit(Peek(k))
    ensures Digits(ds + k) == ds && (ds + k)[|ds|..] == k
    ensures Peek(ds + k) == if ds == [] then Peek(k) else ds[0]
  {
    if ds == [] {
      assert ds + k == k;
    } else {
      DigitsRun(ds, k);
    }
  }

  lemma {:induction false} ScanSignedText(sign: ExpSign, ds: Text, k: Text)
    requires AllDigits(ds) && !IsDigit(Peek(k))
    requires sign.Unsigned? && ds == [] ==> Peek(k) != PLUS && Peek(k) != MINUS
    ensures ScanSigned(SignedText(sign, ds + k)) == (sign.Minus?, ds, k)
  {
    var t := ds + k;
    RunEnds(ds, k);
    if !sign.Unsigned? {
      assert SignedText(sign, t)[1..] == t;
    }
  }

  lemma {:induction false} ScanExpText(e: ExpPart, k: Text)
    requires (e.Exp? ==> AllDigits(e.digits)) && ExpEnds(e, k)
    ensures ScanExponent(ExpText(e, k))
         == (e.Exp? && e.sign.Minus?, if e.Exp? then e.digits else [], k)
  {
    if e.Exp? {
      ScanSignedText(e.sign, e.digits, k);
      assert ExpText(e, k)[1..] == SignedText(e.sign, e.digits + k);
    }
  }

  lemma {:induction false} ScanFracText(ds: Text, k: Text)
    requires AllDigits(ds) && FracEnds(ds, k)
    ensures ScanFraction(FracText(ds, k)) == (ds, k)
  {
    if ds != [] {
      assert FracText(ds, k)[1..] == ds + k;
      RunEnds(ds, k);
    }
  }

  lemma {:induction false} ScanIntText(ints: Text, k: Text)
    requires IntShape(ints) && IntEnds(ints, k)
    ensures ScanInteger(ints + k) == (if ints != [] && ints[0] == ZERO then ints[1..] else ints, k)
  {
    if ints != [] && ints[0] == ZERO {
      assert (ints + k)[1..] == ints[1..] + k;
      if |ints| == 1 {
        assert ints[1..] + k == k;
      } else {
        RunEnds(ints[1..], k);
      }
    } else {
      RunEnds(ints, k);
    }
  }

  /** What follows each part of a literal ends that part. */
  lemma {:induction false} PartsEnd(l: NumLit, k: Text)
    requires l.Lenient() && Ends(l, k)
    ensures FracEnds(l.fracs, ExpText(l.exp, k)) && IntEnds(l.ints, FracText(l.fracs, ExpText(l.exp, k)))
  {
  }

  /** `parse_number` reads every number, of the grammar or lenient, to its
      end. */
  lemma {:induction false} ScanOfLiteral(l: NumLit, k: Text)
    requires l.Lenient() && Ends(l, k)
    ensures ScanNumber(NumText(l, k)) == LitScan(l, k)
  {
    hide ScanInteger, ScanFraction, ScanExponent, FracText, ExpText, IntEnds, FracEnds;
    var e := ExpText(l.exp, k);
    var f := FracText(l.fracs, e);
    PartsEnd(l, k);
    ScanExpText(l.exp, k);
    ScanFracText(l.fracs, e);
    ScanIntText(l.ints, f);
    if l.neg {
      assert NumText(l, k)[1..] == MagnitudeText(l, k);
    } else {
      FirstDigit(l.ints, f);
    }
  }

  lemma {:induction false} FirstDigit(ints: Text, k: Text)
    requires AllDigits(ints) && ints != []
    ensures Peek(ints + k) != MINUS && IsDigit(Peek(ints + k))
  {
    assert (ints + k)[0] == ints[0];
  }

  // ------------------------------------------- every scanned text is a literal

  lemma {:induction false} DigitsHead(s: Text)
    ensures Digits(s) != [] ==> s != [] && Digits(s)[0] == s[0]
    ensures Digits(s) == [] <==> !IsDigit(Peek(s))
  {
  }

  /** The digits that start with none of the zeros. */
  function NonZeroRun(s: Text): (ds: Text)
    ensures AllDigits(ds) && |ds| <= |s|
  {
    if 49 <= Peek(s) <= 57 then Digits(s) else []
  }

  lemma {:induction false} RunIs(s: Text)
    ensures var ds := NonZeroRun(s);
      && s == ds + s[|ds|..] && (ds != [] ==> ds[0] != ZERO)
      && !(49 <= Peek(s[|ds|..]) <= 57) && (ds != [] || Peek(s) != ZERO ==> !IsDigit(Peek(s[|ds|..])))
  {
    DigitsHead(s);
    hide Digits;
    assert s[0..] == s;
  }

  /** A zero in front of a run, or the run alone. */
  lemma {:induction false} RunShape(ds: Text, k: Text, zero: bool)
    requires AllDigits(ds) && (ds != [] ==> ds[0] != ZERO) && !(49 <= Peek(k) <= 57)
    requires ds != [] || !zero ==> !IsDigit(Peek(k))
    ensures var ints := if zero then [ZERO] + ds else ds;
      IntShape(ints) && IntEnds(ints, k)
  {
    if zero {
      assert ([ZERO] + ds)[1..] == ds;
    }
  }

  lemma {:induction false} SpelledInt(s: Text) returns (ints: Text)
    ensures IntShape(ints) && s == ints + ScanInteger(s).1 && IntEnds(ints, ScanInteger(s).1)
  {
    hide Digits, NonZeroRun, ScanInteger, IntShape, IntEnds;
    var zero := Peek(s) == ZERO;
    var s1 := if zero then s[1..] else s;
    var ds := NonZeroRun(s1);
    RunIs(s1);
    SameRun(s);
    RunShape(ds, s1[|ds|..], zero);
    ints := if zero then [ZERO] + ds else ds;
    if zero {
      assert s == [ZERO] + s1;
      Assoc([ZERO], ds, s1[|ds|..]);
    }
  }

  lemma {:induction false} SameRun(s: Text)
    ensures var s1 := if Peek(s) == ZERO then s[1..] else s;
      ScanInteger(s).1 == s1[|NonZeroRun(s1)|..]
  {
  }

  lemma {:induction false} SpelledFrac(s: Text)
    ensures var f := ScanFraction(s);
      s == FracText(f.0, f.1) && FracEnds(f.0, f.1)
  {
    if Peek(s) == DOT && IsDigit(Peek(s[1..])) {
      DigitsHead(s[1..]);
      hide Digits;
      assert s == [DOT] + s[1..];
    }
  }

  /** The digits behind the sign of an exponent, and where they end. */
  lemma {:induction false} ScannedExp(s: Text) returns (sign: ExpSign, ds: Text)
    requires Peek(s) == 101 || Peek(s) == 69
    ensures AllDigits(ds) && s[1..] == SignedText(sign, ds + ScanExponent(s).2)
    ensures !IsDigit(Peek(ScanExponent(s).2))
    ensures sign.Unsigned? ==> Peek(s[1..]) != PLUS && Peek(s[1..]) != MINUS
  {
    var t := s[1..];
    sign := if Peek(t) == PLUS then Plus else if Peek(t) == MINUS then Minus else Unsigned;
    var t1 := if sign.Unsigned? then t else t[1..];
    hide Digits;
    ds := Digits(t1);
    assert !sign.Unsigned? ==> t == [t[0]] + t1;
    assert t1[|ds|..] == ScanExponent(s).2;
  }

  lemma {:induction false} SpelledExp(s: Text) returns (e: ExpPart)
    ensures (e.Exp? ==> AllDigits(e.digits)) && s == ExpText(e, ScanExponent(s).2)
    ensures ExpEnds(e, ScanExponent(s).2)
  {
    if Peek(s) == 101 || Peek(s) == 69 {
      var sign, ds := ScannedExp(s);
      hide ScanExponent;
      e := Exp(s[0] == 69, sign, ds);
      assert s == [s[0]] + s[1..];
      assert ds == [] ==> ds + ScanExponent(s).2 == ScanExponent(s).2;
    } else {
      e := NoExp;
    }
  }

  /** Whatever starts as a number and is scanned is the text of a lenient
      literal, followed by what cannot continue it. */
  lemma {:induction false} SpelledNumber(s: Text) returns (l: NumLit)
    requires Peek(s) == MINUS || IsDigit(Peek(s))
    ensures l.Lenient() && Ends(l, ScanNumber(s).rest)
    ensures s == NumText(l, ScanNumber(s).rest) && ScanNumber(s) == LitScan(l, ScanNumber(s).rest)
  {
    hide ScanInteger, ScanFraction, ScanExponent, IntShape, IntEnds, FracEnds, ExpEnds;
    hide FracText, ExpText, NumText, LitScan;
    var neg := Peek(s) == MINUS;
    var s0 := if neg then s[1..] else s;
    var s1 := ScanInteger(s0).1;
    var s2 := ScanFraction(s1).1;
    var ints := SpelledInt(s0);
    SpelledFrac(s1);
    var e := SpelledExp(s2);
    l := NumLit(neg, ints, ScanFraction(s1).0, e);
    assert neg ==> s == [MINUS] + s0;
    RestOf(s);
    PartsStop(l, s1, s2, ScanNumber(s).rest);
    LiteralOf(s, s0, l, s1, s2, ScanNumber(s).rest);
    ScanOfLiteral(l, ScanNumber(s).rest);
  }

  lemma {:induction false} RestOf(s: Text)
    ensures var s0 := if Peek(s) == MINUS then s[1..] else s;
      ScanNumber(s).rest == ScanExponent(ScanFraction(ScanInteger(s0).1).1).2
  {
    hide ScanInteger, ScanFraction, ScanExponent;
  }

  lemma {:induction false} PartsStop(l: NumLit, s1: Text, s2: Text, k: Text)
    requires s1 == FracText(l.fracs, s2) && s2 == ExpText(l.exp, k)
    requires IntEnds(l.ints, s1) && FracEnds(l.fracs, s2) && ExpEnds(l.exp, k)
    ensures Ends(l, k)
  {
    hide IntEnds, FracEnds, ExpEnds;
  }

  lemma {:induction false} LiteralOf(s: Text, s0: Text, l: NumLit, s1: Text, s2: Text, k: Text)
    requires s0 == if Peek(s) == MINUS then s[1..] else s
    requires l.neg == (Peek(s) == MINUS) && s == if l.neg then [MINUS] + s0 else s0
    requires s0 == l.ints + s1 && IntShape(l.ints) && IntEnds(l.ints, s1)
    requires s1 == FracText(l.fracs, s2) && s2 == ExpText(l.exp, k) && AllDigits(l.fracs)
    requires l.exp.Exp? ==> AllDigits(l.exp.digits)
    requires Peek(s) == MINUS || IsDigit(Peek(s))
    ensures l.Lenient() && s == NumText(l, k)
  {
    hide IntShape, FracText, ExpText;
    assert l.ints == [] ==> s0 == s1;
  }

  // ------------------------------------------------------------- meaning

  /** x * 10^e. */
  function Scale(x: real, e: int): real
    decreases if e < 0 then -e else e
  {
    if e == 0 then x else if e > 0 then Scale(10.0 * x, e - 1) else Scale(x / 10.0, e + 1)
  }

  /** Positional value of a digit string whose last digit weighs 10^e. */
  function Positional(ds: Text, e: int): real
    requires AllDigits(ds)
    decreases |ds|
  {
    if ds == [] then 0.0
    else Positional(ds[..|ds| - 1], e + 1) + Scale((ds[|ds| - 1] - ZERO) as real, e)
  }

  function ExpValue(e: ExpPart): int
    requires e.Exp? ==> AllDigits(e.digits)
  {
    if e.NoExp? then 0 else if e.sign.Minus? then -(Value(e.digits) as int) else Value(e.digits)
  }

  /** The number a literal stands for: the last digit before the point weighs
      10^exp, the k-th digit after it 10^(exp - k). */
  function Rational(l: NumLit): real
    requires l.Valid()
  {
    var e := ExpValue(l.exp);
    var m := Positional(l.ints, e) + Positional(l.fracs, e - |l.fracs|);
    if l.neg then -m else m
  }

  /** The rational the scanned parts denote, with the digits accumulated
      without rounding. */
  function ScannedRational(c: Scan): real
    requires c.Valid()
  {
    var m := Scale(Value(c.ints + c.fracs) as real, c.Exponent());
    if c.neg then -m else m
  }

  lemma {:induction false} PositionalConcat(a: Text, b: Text, e: int)
    requires AllDigits(a) && AllDigits(b)
    ensures Positional(a + b, e) == Positional(a, e + |b|) + Positional(b, e)
    decreases |b|
  {
    if b == [] {
      assert a + b == a;
    } else {
      var p := b[..|b| - 1];
      assert (a + b)[..|a + b| - 1] == a + p;
      PositionalConcat(a, p, e + 1);
    }
  }

  /** One accumulator over all digits is their positional value. */
  lemma {:induction false} PositionalIsValue(ds: Text, e: int)
    requires AllDigits(ds)
    ensures Positional(ds, e) == Scale(Value(ds) as real, e)
    decreases |ds|
  {
    if ds == [] {
      ScaleZero(e);
    } else {
      var p, d := ds[..|ds| - 1], ds[|ds| - 1] - ZERO;
      PositionalIsValue(p, e + 1);
      ScaleUp(Value(p) as real, e);
      ScaleAdd(10.0 * Value(p) as real, d as real, e);
      assert Value(ds) as real == 10.0 * Value(p) as real + d as real;
    }
  }

  lemma {:induction false} ScaleZero(e: int)
    ensures Scale(0.0, e) == 0.0
    decreases if e < 0 then -e else e
  {
    if e > 0 {
      ScaleZero(e - 1);
    } else if e < 0 {
      ScaleZero(e + 1);
    }
  }

  lemma {:induction false} ScaleAdd(x: real, y: real, e: int)
    ensures Scale(x + y, e) == Scale(x, e) + Scale(y, e)
    decreases if e < 0 then -e else e
  {
    if e > 0 {
      ScaleAdd(10.0 * x, 10.0 * y, e - 1);
      assert 10.0 * (x + y) == 10.0 * x + 10.0 * y;
    } else if e < 0 {
      ScaleAdd(x / 10.0, y / 10.0, e + 1);
      assert (x + y) / 10.0 == x / 10.0 + y / 10.0;
    }
  }

  lemma {:induction false} ScaleUp(x: real, e: int)
    ensures Scale(x, e + 1) == Scale(10.0 * x, e)
  {
    if e < 0 {
      assert 10.0 * x / 10.0 == x;
    }
  }

  /** The accumulators denote exactly the number the literal stands for, and
      the node is typed integer exactly when there is no fraction and the
      exponent is zero. */
  lemma {:induction false} NumberMeaning(l: NumLit, k: Text)
    requires l.Valid() && Ends(l, k)
    ensures ScannedRational(ScanNumber(NumText(l, k))) == Rational(l)
    ensures ScanNumber(NumText(l, k)).IsInt()
       <==> l.fracs == [] && (l.exp.Exp? ==> Value(l.exp.digits) == 0)
  {
    ScanOfLiteral(l, k);
    LitScanMeaning(l, k);
  }

  lemma {:induction false} LitScanMeaning(l: NumLit, k: Text)
    requires l.Valid()
    ensures ScannedRational(LitScan(l, k)) == Rational(l)
  {
    var c := LitScan(l, k);
    var e := ExpValue(l.exp);
    PositionalConcat(c.ints, c.fracs, e - |l.fracs|);
    PositionalIsValue(c.ints + c.fracs, e - |l.fracs|);
    LeadingZero(l, e);
  }

  lemma {:induction false} LeadingZero(l: NumLit, e: int)
    requires l.Valid()
    ensures Positional(if l.ints[0] == ZERO then l.ints[1..] else l.ints, e) == Positional(l.ints, e)
  {
    if l.ints[0] == ZERO {
      assert l.ints[..0] == [];
      ScaleZero(e);
    }
  }

  // ----------------------------------------------------- printed integers

  /** The literal `print_int` writes. */
  function PrintedNum(v: int): (l: NumLit)
    ensures l.Valid()
  {
    NumLit(v < 0, Decimal(Abs(v)), [], NoExp)
  }

  lemma {:induction false} IntTextIsLiteral(v: int, k: Text)
    ensures IntText(v) + k == NumText(PrintedNum(v), k)
  {
    Assoc([MINUS], Decimal(Abs(v)), k);
  }

  /** The number `parse_number` stores for the text `print_int` wrote. */
  function Reread(v: int): int {
    Stored(v < 0, Accumulate(Decimal(Abs(v))))
  }

  lemma {:induction false} AccumulateZero(ds: Text)
    requires ds == [ZERO]
    ensures Accumulate(ds) == 0
  {
    assert ds[..0] == [];
    assert Round(0) == 0;
  }

  lemma {:induction false} LitScanOfPrinted(v: int, k: Text)
    ensures var c := LitScan(PrintedNum(v), k);
      c.IsInt() && c.neg == (v < 0) && c.Mantissa() == Accumulate(Decimal(Abs(v)))
  {
    var l := PrintedNum(v);
    var c := LitScan(l, k);
    assert c.ints + c.fracs == c.ints;
    if l.ints[0] == ZERO {
      AccumulateZero(l.ints);
    }
  }

  lemma {:induction false} ScanOfPrinted(v: int, k: Text)
    requires Stops(k)
    ensures ScanNumber(IntText(v) + k) == LitScan(PrintedNum(v), k)
  {
    IntTextIsLiteral(v, k);
    StopsEnds(PrintedNum(v), k);
    ScanOfLiteral(PrintedNum(v), k);
  }

  /** Within reach an integer survives printing and parsing exactly when it is
      a double whose last digit is rounded towards it. */
  lemma {:induction false} RereadIsExact(v: int)
    requires -REACH <= v <= REACH
    ensures Reread(v) == v <==> Exact(v)
  {
    var ds := Decimal(Abs(v));
    AccumulateIsExact(ds);
    AccumulateBounded(ds);
    hide Survives;
    StoredSmall(v < 0, Accumulate(ds));
  }

  lemma {:induction false} StoredSmall(neg: bool, n: nat)
    requires n < TWO57
    ensures Stored(neg, n) == if neg then -(n as int) else n
  {
  }

  /** At any magnitude an integer that survives is one a double holds. */
  lemma {:induction false} RereadIsDouble(v: int)
    requires Reread(v) == v
    ensures IsDouble(Abs(v))
  {
    AccumulateIsDouble(Decimal(Abs(v)));
    StoredIsDouble(v, Accumulate(Decimal(Abs(v))));
  }

  /** Not every double survives: 2^54 + 12 does not. */
  lemma {:induction false} DoubleIsLost()
    ensures IsDouble(TWO54 + 12) && Reread(TWO54 + 12) != TWO54 + 12
  {
    SurvivesIs(TWO54 + 12);
    hide IsDouble, Survives, Reread;
    RereadIsExact(TWO54 + 12);
  }

  /** In the whole range of the 64-bit types, a number within reach with zeros
      behind it survives printing and parsing exactly when a double holds it. */
  lemma {:induction false} RereadZeros(m: nat, k: nat, neg: bool)
    requires 0 < m <= REACH && Survives(m) && m * Pow10(k) < (if neg then TWO63 + 1 else TWO64)
    ensures var v := if neg then -((m * Pow10(k)) as int) else m * Pow10(k);
      Reread(v) == v <==> IsDouble(Abs(v))
  {
    var n := m * Pow10(k);
    var v := if neg then -(n as int) else n;
    ZerosAreExact(m, k);
    PowPositive(k);
    hide Survives, IsDouble, Accumulate, Pow10;
    assert n > 0;
    if Reread(v) == v {
      RereadIsDouble(v);
    } else {
      StoredInRange(neg, n);
    }
  }

  lemma {:induction false} StoredInRange(neg: bool, n: nat)
    requires n < if neg then TWO63 + 1 else TWO64
    ensures Stored(neg, n) == if neg then -(n as int) else n
  {
  }
}

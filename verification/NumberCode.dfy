/** The loops of `parse_number` and `print_int`. */
module NumberCode {
  import opened Bytes
  import opened Numbers
  import Widths

  /** The digit loop: every digit is added to ten times the accumulator, each
      operation rounded. */
  method AccumulateDigits(n0: nat, s: Text, ghost before: Text) returns (n: nat, count: nat, rest: Text)
    requires AllDigits(before) && n0 == Accumulate(before)
    ensures n == Accumulate(before + Digits(s)) && count == |Digits(s)| && rest == s[count..]
  {
    hide Digits, AccumulateDigit;
    n, count, rest := n0, 0, s;
    assert before + Digits(s)[..0] == before;
    while IsDigit(Peek(rest))
      invariant count <= |Digits(s)| && rest == s[count..]
      invariant n == Accumulate(before + Digits(s)[..count])
      decreases |rest|
    {
      DigitAt(s, count);
      ghost var done := before + Digits(s)[..count];
      assert before + Digits(s)[..count + 1] == done + [rest[0]];
      assert (done + [rest[0]])[..|done|] == done;
      n := AccumulateDigit(n, rest[0]);
      count, rest := count + 1, rest[1..];
    }
    DigitAt(s, count);
    assert Digits(s)[..count] == Digits(s);
  }

  /** Whether the run of digits reaches an index. */
  lemma {:induction false} DigitAt(s: Text, i: nat)
    requires i <= |Digits(s)|
    ensures i < |Digits(s)| ==> s[i] == Digits(s)[i]
    ensures IsDigit(Peek(s[i..])) <==> i < |Digits(s)|
  {
    if i < |Digits(s)| {
      assert s[i] == Digits(s)[i];
    }
  }

  /** The exponent's digits, into an integer accumulator. */
  method ReadExponent(s: Text) returns (subscale: nat, rest: Text)
    ensures subscale == Value(Digits(s)) && rest == s[|Digits(s)|..]
  {
    var count := 0;
    subscale, rest := 0, s;
    while IsDigit(Peek(rest))
      invariant 0 <= count <= |Digits(s)| && rest == s[count..]
      invariant subscale == Value(Digits(s)[..count])
      decreases |rest|
    {
      DigitAt(s, count);
      ghost var done := Digits(s)[..count];
      assert Digits(s)[..count + 1] == done + [rest[0]];
      assert (done + [rest[0]])[..|done|] == done;
      subscale := subscale * 10 + (rest[0] - ZERO);
      count, rest := count + 1, rest[1..];
    }
    DigitAt(s, count);
    assert Digits(s)[..count] == Digits(s);
  }

  /** The integer part: one zero is skipped, then digits if one of 1 to 9
      follows. */
  method ReadInteger(s: Text) returns (n: nat, rest: Text)
    ensures n == Accumulate(ScanInteger(s).0) && rest == ScanInteger(s).1
  {
    n, rest := 0, s;
    if Peek(rest) == ZERO {
      rest := rest[1..];
    }
    if 49 <= Peek(rest) <= 57 {
      assert [] + Digits(rest) == Digits(rest);
      var count;
      n, count, rest := AccumulateDigits(n, rest, []);
    }
  }

  /** The fractional part, into the same accumulator. */
  method ReadFraction(n0: nat, s: Text, ghost ints: Text) returns (n: nat, scale: int, rest: Text)
    requires AllDigits(ints) && n0 == Accumulate(ints)
    ensures n == Accumulate(ints + ScanFraction(s).0)
    ensures scale == -|ScanFraction(s).0| && rest == ScanFraction(s).1
  {
    n, scale, rest := n0, 0, s;
    if Peek(rest) == DOT && IsDigit(Peek(rest[1..])) {
      var count;
      n, count, rest := AccumulateDigits(n, rest[1..], ints);
      scale := -(count as int);
    } else {
      assert ints + [] == ints;
    }
  }

  method ReadSignedExponent(s: Text) returns (expNeg: bool, subscale: nat, rest: Text)
    ensures var e := ScanExponent(s);
      expNeg == e.0 && subscale == Value(e.1) && rest == e.2
  {
    subscale, expNeg, rest := 0, false, s;
    if Peek(rest) == 101 || Peek(rest) == 69 {
      rest := rest[1..];
      if Peek(rest) == PLUS {
        rest := rest[1..];
      } else if Peek(rest) == MINUS {
        expNeg, rest := true, rest[1..];
      }
      subscale, rest := ReadExponent(rest);
    }
  }

  /** The whole of `parse_number`, before the result is stored: the power of
      ten the number is scaled by, and whether it is an integer. */
  method ReadNumber(num: Text) returns (neg: bool, n: nat, e: int, isInt: bool, rest: Text)
    ensures var c := ScanNumber(num);
      neg == c.neg && n == c.Mantissa() && e == c.Exponent() && isInt == c.IsInt() && rest == c.rest
  {
    hide ScanInteger, ScanFraction, ScanExponent, Accumulate, Value;
    neg, rest := false, num;
    if Peek(rest) == MINUS {
      neg, rest := true, rest[1..];
    }
    ghost var ints := ScanInteger(rest).0;
    n, rest := ReadInteger(rest);
    var scale, expNeg, subscale;
    n, scale, rest := ReadFraction(n, rest, ints);
    expNeg, subscale, rest := ReadSignedExponent(rest);
    e := scale + if expNeg then -(subscale as int) else subscale;
    isInt := scale == 0 && subscale == 0;
  }

  /** `print_int`: a 22-byte buffer always holds the text and its NUL. */
  method PrintInt(f: IntFields) returns (str: array<byte>)
    ensures fresh(str) && str.Length == 22 && IsCString(str, IntText(Numeric(f)))
  {
    var s := Widths.PrintedText(f);
    Widths.SameText(f);
    IntTextFits(Numeric(f));
    str := new byte[22](i => 0);
    for i := 0 to |s|
      invariant str[..i] == s[..i]
      invariant forall j :: i <= j < 22 ==> str[j] == 0
    {
      str[i] := s[i];
    }
    assert str[..|s|] == s;
  }
}

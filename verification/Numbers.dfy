/** Numbers: `parse_number` and `print_int`.

    `n` accumulates in a `long double`, which is a 53-bit double on the target
    compiler; `Round` is round-to-nearest-even to that format, applied after
    the multiplication and after the addition as the hardware does. */
module Numbers {
  import opened Bytes
  import opened Bits

  const TWO53: int := 0x20_0000_0000_0000
  const TWO54: int := 0x40_0000_0000_0000
  const TWO63: int := 0x8000_0000_0000_0000
  const TWO64: int := 0x1_0000_0000_0000_0000

  predicate AllDigits(ds: Text) {
    forall i :: 0 <= i < |ds| ==> IsDigit(ds[i])
  }

  /** The number a digit string denotes. */
  function Value(ds: Text): nat
    requires AllDigits(ds)
  {
    if ds == [] then 0 else 10 * Value(ds[..|ds| - 1]) + (ds[|ds| - 1] - ZERO)
  }

  /** How many bits of `n` a 53-bit double has no room for. */
  function Excess(n: nat): nat {
    if n < TWO53 then 0 else 1 + Excess(n / 2)
  }

  /** `n` without its last `k` bits, rounded to nearest, ties to even. */
  function RoundBits(n: nat, k: nat): nat {
    var q, r := Shr(n, k), Low(n, k);
    Shl(if 2 * r < Shl(1, k) || (2 * r == Shl(1, k) && q % 2 == 0) then q else q + 1, k)
  }

  /** The double nearest to the integer `n`. */
  function Round(n: nat): nat {
    if n <= TWO53 then n else RoundBits(n, Excess(n))
  }

  /** One turn of the digit loop: the product by ten is rounded, then the sum
      with the digit. */
  function AccumulateDigit(n: nat, d: byte): nat
    requires IsDigit(d)
  {
    Round(Round(n * 10) + (d - ZERO))
  }

  /** What the digit loops leave in `n`. */
  function Accumulate(ds: Text): nat
    requires AllDigits(ds)
  {
    if ds == [] then 0
    else AccumulateDigit(Accumulate(ds[..|ds| - 1]), ds[|ds| - 1])
  }

  /** The integers a double holds, but for the bound on its exponent: from 2^1024
      on the accumulator of the source is infinite. */
  predicate IsDouble(n: nat) {
    Low(n, Excess(n)) == 0
  }

  /** The last number whose digits but the last make at most 2^53. */
  const REACH: int := 10 * TWO53 + 9

  /** 2^k: the distance of doubles with `k` excess bits. */
  function UlpOf(k: nat): (s: nat)
    ensures s > 0
  {
    if k == 0 then 1 else 2 * UlpOf(k - 1)
  }

  /** A double whose last digit does not fall on a tie, or falls on one that is
      rounded towards it. */
  predicate Survives(n: nat) {
    var s := UlpOf(Excess(n));
    IsDouble(n) && (2 * (n % 10 % s) == s ==> n % (2 * s) == 0)
  }

  /** Integers within reach that the digit loop leaves as they are. */
  predicate Exact(v: int) {
    Abs(v) <= REACH && Survives(Abs(v))
  }

  function Abs(v: int): nat {
    if v < 0 then -v else v
  }

  // ------------------------------------------------------------ rendering

  /** What `sprintf` with `%u`, `%llu` writes. */
  function Decimal(n: nat): (ds: Text)
    ensures ds != [] && AllDigits(ds)
    ensures Value(ds) == n
    ensures ds[0] == ZERO ==> n == 0 && |ds| == 1
  {
    if n < 10 then
      var ds: Text := [ZERO + n];
      assert ds[..0] == [];
      ds
    else
      var hd, tl := Decimal(n / 10), [ZERO + n % 10];
      assert (hd + tl)[..|hd + tl| - 1] == hd;
      hd + tl
  }

  function Pow10(k: nat): nat {
    if k == 0 then 1 else 10 * Pow10(k - 1)
  }

  lemma {:induction false} DecimalLength(n: nat, k: nat)
    requires k >= 1 && n < Pow10(k)
    ensures |Decimal(n)| <= k
  {
    if n >= 10 {
      DecimalLength(n / 10, k - 1);
    }
  }

  /** What `sprintf` writes for a signed number. */
  function IntText(v: int): (s: Text)
    ensures s != [] && (IsDigit(s[0]) || s[0] == MINUS)
    ensures NulFree(s)
  {
    if v < 0 then [MINUS] + Decimal(-v) else Decimal(v)
  }

  /** The 22 bytes `print_int` allocates hold every 64-bit number. */
  lemma {:induction false} IntTextFits(v: int)
    requires -TWO63 <= v < TWO64
    ensures |IntText(v)| + 1 <= 22
  {
    assert Pow10(5) == 100000;
    assert Pow10(10) == 100000 * Pow10(5);
    assert Pow10(15) == 100000 * Pow10(10);
    assert Pow10(20) == 100000 * Pow10(15);
    DecimalLength(if v < 0 then -v else v, 20);
  }

  // -------------------------------------------------------- node contents

  type uint64 = n: int | 0 <= n < TWO64

  /** The number fields of a node: `sign` and the 64-bit `valueint`. */
  datatype IntFields = IntFields(sign: int, valueint: uint64)

  /** What the two fields denote: `valueint` read as signed when `sign` is -1. */
  function Numeric(f: IntFields): int {
    if f.sign == -1 && f.valueint >= TWO63 then f.valueint - TWO64 else f.valueint
  }

  /** The accumulator converted to 64 bits, with its sign. */
  function SignedFields(neg: bool, n: nat): (f: IntFields)
    ensures !neg && n < TWO64 ==> Numeric(f) == n
    ensures neg && n <= TWO63 ==> Numeric(f) == -(n as int)
  {
    if neg then IntFields(-1, -(n as int) % TWO64) else IntFields(1, n % TWO64)
  }

  /** What a parsed integer denotes once stored. */
  function Stored(neg: bool, n: nat): (v: int)
    ensures n <= TWO63 ==> v == if neg then -(n as int) else n
  {
    Numeric(SignedFields(neg, n))
  }

  /** Beyond that range the number is kept modulo 2^64, in the range its sign
      selects. */
  lemma {:induction false} StoredIsCast(neg: bool, n: nat)
    ensures var v := Stored(neg, n);
      && (v - if neg then -(n as int) else n) % 0x1_0000_0000_0000_0000 == 0
      && (if neg then -0x8000_0000_0000_0000 <= v < 0x8000_0000_0000_0000 else 0 <= v < 0x1_0000_0000_0000_0000)
  {
    var m := if neg then -(n as int) else n;
    assert m == m / TWO64 * TWO64 + m % TWO64;
    Multiple(-(m / TWO64));
    Multiple(-(m / TWO64) - 1);
  }

  lemma {:induction false} Multiple(q: int)
    ensures q * 0x1_0000_0000_0000_0000 % 0x1_0000_0000_0000_0000 == 0
  {
  }

  // -------------------------------------------------------------- scanning

  /** The longest run of digits a text starts with. */
  function Digits(s: Text): (ds: Text)
    ensures AllDigits(ds)
    ensures |ds| <= |s| && s == ds + s[|ds|..]
    ensures !IsDigit(Peek(s[|ds|..]))
  {
    if s != [] && IsDigit(s[0]) then
      var tl := Digits(s[1..]);
      assert s[1 + |tl|..] == s[1..][|tl|..];
      [s[0]] + tl
    else []
  }

  lemma {:induction false} DigitsRun(ds: Text, rest: Text)
    requires AllDigits(ds) && !IsDigit(Peek(rest))
    ensures Digits(ds + rest) == ds
  {
    if ds == [] {
      assert ds + rest == rest;
    } else {
      DigitsRun(ds[1..], rest);
      assert (ds + rest)[1..] == ds[1..] + rest;
    }
  }

  /** What one pass of `parse_number` reads: a sign, the digits before and
      after the point, and a signed exponent. */
  datatype Scan = Scan(neg: bool, ints: Text, fracs: Text, expNeg: bool, exps: Text, rest: Text)
  {
    predicate Valid() { AllDigits(ints) && AllDigits(fracs) && AllDigits(exps) }

    /** `n` after both digit loops. */
    function Mantissa(): nat
      requires Valid()
    {
      Accumulate(ints + fracs)
    }

    /** The power of ten the number is scaled by. */
    function Exponent(): int
      requires Valid()
    {
      (if expNeg then -(Value(exps) as int) else Value(exps)) - |fracs|
    }

    /** The test for an integer node: no fraction digit, and no exponent but
        zero. */
    predicate IsInt()
      requires Valid()
    {
      fracs == [] && Value(exps) == 0
    }
  }

  function ScanSigned(s: Text): (r: (bool, Text, Text))
    ensures AllDigits(r.1)
    ensures IsSuffix(r.2, s)
  {
    var s1 := if Peek(s) == PLUS || Peek(s) == MINUS then s[1..] else s;
    var ds := Digits(s1);
    (Peek(s) == MINUS, ds, s1[|ds|..])
  }

  function ScanExponent(s: Text): (r: (bool, Text, Text))
    ensures AllDigits(r.1)
    ensures IsSuffix(r.2, s)
  {
    if Peek(s) == 101 || Peek(s) == 69 then ScanSigned(s[1..]) else (false, [], s)
  }

  function ScanFraction(s: Text): (r: (Text, Text))
    ensures AllDigits(r.0)
    ensures IsSuffix(r.1, s)
  {
    if Peek(s) == DOT && IsDigit(Peek(s[1..])) then
      var ds := Digits(s[1..]);
      (ds, s[1..][|ds|..])
    else
      ([], s)
  }

  function ScanInteger(s: Text): (r: (Text, Text))
    ensures AllDigits(r.0)
    ensures IsSuffix(r.1, s)
    ensures IsDigit(Peek(s)) ==> |r.1| < |s|
  {
    var s1 := if Peek(s) == ZERO then s[1..] else s;
    var ds := if 49 <= Peek(s1) <= 57 then Digits(s1) else [];
    (ds, s1[|ds|..])
  }

  function ScanMagnitude(neg: bool, s: Text): (r: Scan)
    ensures r.Valid()
    ensures IsSuffix(r.rest, s)
    ensures IsDigit(Peek(s)) ==> |r.rest| < |s|
  {
    var (ints, s1) := ScanInteger(s);
    var (fracs, s2) := ScanFraction(s1);
    var (expNeg, exps, s3) := ScanExponent(s2);
    SuffixTrans(s2, s1, s);
    SuffixTrans(s3, s2, s);
    Scan(neg, ints, fracs, expNeg, exps, s3)
  }

  function ScanNumber(s: Text): (r: Scan)
    ensures r.Valid()
    ensures IsSuffix(r.rest, s)
    ensures Peek(s) == MINUS || IsDigit(Peek(s)) ==> |r.rest| < |s|
  {
    if Peek(s) == MINUS then
      var r := ScanMagnitude(true, s[1..]);
      SuffixTrans(r.rest, s[1..], s);
      r
    else ScanMagnitude(false, s)
  }
}

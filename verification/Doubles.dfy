/** Which integers survive the digit loop of `parse_number`. */
module Doubles {
  import opened Bytes
  import opened Bits
  import opened Numbers

  const TWO55: int := 0x80_0000_0000_0000
  const TWO56: int := 0x100_0000_0000_0000
  const TWO57: int := 0x200_0000_0000_0000

  // ------------------------------------------------- rounding is to a double

  lemma {:induction false} ExcessOfShl(q: nat, k: nat)
    requires TWO53 / 2 <= q < TWO53
    ensures Excess(Shl(q, k)) == k && Low(Shl(q, k), k) == 0
  {
    LowOfShl(q, k);
    if k > 0 {
      ExcessOfShl(q, k - 1);
      ShlGrows(q, k - 1);
    }
  }

  lemma {:induction false} ShlGrows(q: nat, k: nat)
    ensures Shl(q, k) >= q
  {
    if k > 0 {
      ShlGrows(q, k - 1);
    }
  }

  /** What is left of a number has 53 bits. */
  lemma {:induction false} Leading(n: nat)
    requires n >= TWO53
    ensures TWO53 / 2 <= Shr(n, Excess(n)) < TWO53
  {
    if n / 2 >= TWO53 {
      Leading(n / 2);
    }
  }

  lemma {:induction false} ShlOfTwice(q: nat, k: nat)
    ensures Shl(2 * q, k) == Shl(q, k + 1)
  {
    if k > 0 {
      ShlOfTwice(q, k - 1);
    }
  }

  /** Every rounded number is one a double holds. */
  lemma {:induction false} RoundIsDouble(n: nat)
    ensures IsDouble(Round(n))
  {
    if n <= TWO53 {
      assert Excess(TWO53 / 2) == 0 && Low(TWO53 / 2, 0) == 0;
    } else {
      var k, q := Excess(n), Shr(n, Excess(n));
      Leading(n);
      if q + 1 == TWO53 {
        ShlOfTwice(TWO53 / 2, k);
        ExcessOfShl(TWO53 / 2, k + 1);
      } else {
        ExcessOfShl(q + 1, k);
      }
      ExcessOfShl(q, k);
    }
  }

  lemma {:induction false} AccumulateIsDouble(ds: Text)
    requires AllDigits(ds)
    ensures IsDouble(Accumulate(ds))
  {
    if ds != [] {
      var a, d := Accumulate(ds[..|ds| - 1]), ds[|ds| - 1];
      RoundIsDouble(Round(a * 10) + (d - ZERO));
    }
  }

  // ---------------------------------------------------------- within reach

  /** The distance between neighbouring doubles around `n`. */
  function Ulp(n: nat): (s: nat)
    ensures s > 0
  {
    if n < TWO53 then 1 else if n < TWO54 then 2 else if n < TWO55 then 4 else if n < TWO56 then 8 else 16
  }

  /** The multiple of `s` nearest to `m`, ties to the even one. */
  function RoundTo(m: nat, s: nat): nat
    requires s > 0
  {
    var q, r := m / s, m % s;
    (if 2 * r < s || (2 * r == s && q % 2 == 0) then q else q + 1) * s
  }

  lemma {:induction false} ExcessSteps(n: nat)
    requires n < TWO57
    ensures Excess(n) == if n < TWO53 then 0 else if n < TWO54 then 1 else if n < TWO55 then 2
                         else if n < TWO56 then 3 else 4
  {
    if n >= TWO53 {
      ExcessSteps(n / 2);
    }
  }

  lemma {:induction false} UnrollOne(a: nat, k: nat)
    ensures Low(a, k + 1) == 2 * Low(a / 2, k) + a % 2
    ensures Shr(a, k + 1) == Shr(a / 2, k) && Shl(a, k + 1) == 2 * Shl(a, k) && UlpOf(k + 1) == 2 * UlpOf(k)
  {
  }

  lemma {:induction false} BitsStep(a: nat, s: nat)
    requires s == 1 || s == 2 || s == 4 || s == 8
    ensures a / 2 / s == a / (2 * s) && 2 * (a / 2 % s) + a % 2 == a % (2 * s)
  {
  }

  /** Shifting by at most four bits, as division and remainder. */
  lemma {:induction false} SmallShifts(a: nat, k: nat)
    requires k <= 4
    ensures UlpOf(k) == if k == 0 then 1 else if k == 1 then 2 else if k == 2 then 4 else if k == 3 then 8 else 16
    ensures Shr(a, k) == a / UlpOf(k) && Low(a, k) == a % UlpOf(k) && Shl(a, k) == a * UlpOf(k)
  {
    if k > 0 {
      SmallShifts(a / 2, k - 1);
      SmallShifts(a, k - 1);
      UnrollOne(a, k - 1);
      BitsStep(a, UlpOf(k - 1));
    }
  }

  lemma {:induction false} RoundIs(m: nat)
    requires m < TWO57
    ensures Round(m) == RoundTo(m, Ulp(m))
  {
    ExcessSteps(m);
    if m > TWO53 {
      var k := Excess(m);
      SmallShifts(m, k);
      SmallShifts(1, k);
      SmallShifts(Shr(m, k), k);
      SmallShifts(Shr(m, k) + 1, k);
    }
  }

  lemma {:induction false} SurvivesIs(n: nat)
    requires n < TWO57
    ensures IsDouble(n) <==> n % Ulp(n) == 0
    ensures Survives(n) <==> n % Ulp(n) == 0 && (2 * (n % 10 % Ulp(n)) == Ulp(n) ==> n % (2 * Ulp(n)) == 0)
  {
    ExcessSteps(n);
    SmallShifts(n, Excess(n));
  }

  predicate SmallUlp(s: nat) { s == 2 || s == 4 || s == 8 || s == 16 }

  lemma {:induction false} Quotient(q: nat, r: nat, s: nat)
    requires SmallUlp(s) && r < s
    ensures (q * s + r) / s == q && (q * s + r) % s == r
  {
    if s == 2 {
      assert q * s == 2 * q;
    } else if s == 4 {
      assert q * s == 4 * q;
    } else if s == 8 {
      assert q * s == 8 * q;
    } else {
      assert q * s == 16 * q;
    }
  }

  lemma {:induction false} RoundAt(q: nat, r: nat, s: nat)
    requires SmallUlp(s) && r < s
    ensures RoundTo(q * s + r, s) == (if 2 * r < s || (2 * r == s && q % 2 == 0) then q else q + 1) * s
  {
    Quotient(q, r, s);
  }

  lemma {:induction false} ParityTwo(q: nat)
    ensures 2 * q % 4 == 0 <==> q % 2 == 0
  {
  }

  lemma {:induction false} ParityFour(q: nat)
    ensures 4 * q % 8 == 0 <==> q % 2 == 0
  {
  }

  lemma {:induction false} ParityEight(q: nat)
    ensures 8 * q % 16 == 0 <==> q % 2 == 0
  {
  }

  lemma {:induction false} ParitySixteen(q: nat)
    ensures 16 * q % 32 == 0 <==> q % 2 == 0
  {
  }

  lemma {:induction false} Parity(q: nat, s: nat)
    requires SmallUlp(s)
    ensures q * s % (2 * s) == 0 <==> q % 2 == 0
  {
    if s == 2 {
      assert q * s == 2 * q;
      ParityTwo(q);
    } else if s == 4 {
      assert q * s == 4 * q;
      ParityFour(q);
    } else if s == 8 {
      assert q * s == 8 * q;
      ParityEight(q);
    } else {
      assert q * s == 16 * q;
      ParitySixteen(q);
    }
  }

  lemma {:induction false} Times(q: int, s: int)
    ensures (q - 1) * s == q * s - s && (q + 1) * s == q * s + s
  {
  }

  lemma {:induction false} Divides(n: nat, s: nat)
    requires s > 0 && n % s == 0
    ensures n == n / s * s
  {
  }

  /** The multiple of `s` that `n` is. */
  lemma {:induction false} Multiple(n: nat, s: nat) returns (q: nat)
    requires SmallUlp(s) && n % s == 0
    ensures n == q * s && (n % (2 * s) == 0 <==> q % 2 == 0)
    ensures n - s == (q - 1) * s && n + s == (q + 1) * s
  {
    q := n / s;
    Divides(n, s);
    Parity(q, s);
    Times(q, s);
  }

  /** Less than half the distance away, rounding goes to the multiple. */
  lemma {:induction false} Near(n: nat, m: nat, s: nat)
    requires SmallUlp(s)
    requires n % s == 0 && 2 * m < 2 * n + s && 2 * n < 2 * m + s
    ensures RoundTo(m, s) == n
  {
    hide RoundTo;
    var q := Multiple(n, s);
    if m >= n {
      RoundAt(q, m - n, s);
    } else {
      assert q > 0;
      RoundAt(q - 1, m - (n - s), s);
    }
  }

  /** Half the distance away, it goes to the even one of the two multiples. */
  lemma {:induction false} Tie(n: nat, m: nat, s: nat)
    requires SmallUlp(s) && n % s == 0 && n >= s
    requires 2 * m + s == 2 * n || 2 * n + s == 2 * m
    ensures n % (2 * s) == 0 ==> RoundTo(m, s) == n
    ensures n % (2 * s) != 0 ==> RoundTo(m, s) == if m < n then n - s else n + s
  {
    hide RoundTo;
    var q := Multiple(n, s);
    if m >= n {
      RoundAt(q, m - n, s);
    } else {
      assert q > 0;
      RoundAt(q - 1, m - (n - s), s);
    }
  }

  lemma {:induction false} MultipleOf(m: nat, p: nat, s: nat)
    requires SmallUlp(s) && m == p * s
    ensures m % s == 0 && (m % (2 * s) == 0 <==> p % 2 == 0)
  {
    Parity(p, s);
    Quotient(p, 0, s);
  }

  /** The multiple below is even when this one is not. */
  lemma {:induction false} Neighbour(n: nat, s: nat)
    requires SmallUlp(s) && n % s == 0 && n >= s
    ensures (n - s) % s == 0 && ((n - s) % (2 * s) == 0 <==> n % (2 * s) != 0)
  {
    var q := Multiple(n, s);
    var p := q - 1;
    MultipleOf(n - s, p, s);
  }

  /** The two roundings of one turn of the digit loop, inside one binade. */
  function Turn(n: nat, d: nat, s: nat): nat
    requires s > 0 && d <= n
  {
    RoundTo(RoundTo(n - d, s) + d, s)
  }

  lemma {:induction false} TurnBelowHalf(n: nat, d: nat, s: nat)
    requires SmallUlp(s) && n % s == 0 && d <= n && 2 * d < s
    ensures Turn(n, d, s) == n
  {
    hide RoundTo;
    Near(n, n - d, s);
    Near(n, n + d, s);
  }

  lemma {:induction false} TurnAtHalf(n: nat, d: nat, s: nat)
    requires SmallUlp(s) && n % s == 0 && n >= 2 * s && 2 * d == s
    ensures Turn(n, d, s) == n <==> n % (2 * s) == 0
  {
    hide RoundTo;
    Tie(n, n - d, s);
    if n % (2 * s) == 0 {
      Tie(n, n + d, s);
    } else {
      Neighbour(n, s);
      Tie(n - s, n - s + d, s);
    }
  }

  /** The multiple below: the turn for `d` is the turn for `d - s` there. */
  lemma {:induction false} TurnAboveHalf(n: nat, d: nat, s: nat)
    requires SmallUlp(s) && n % s == 0 && n >= 2 * s && s < 2 * d && 2 * d < 3 * s
    ensures Turn(n, d, s) == n
  {
    hide RoundTo;
    Neighbour(n, s);
    Near(n - s, n - d, s);
    Near(n, n - s + d, s);
  }

  lemma {:induction false} TurnSix(n: nat)
    requires n % 4 == 0 && n >= 16
    ensures Turn(n, 6, 4) == n <==> n % 8 == 0
  {
    hide RoundTo;
    Tie(n - 4, n - 6, 4);
    if n % 8 == 0 {
      Tie(n, n - 8 + 6, 4);
    } else {
      Tie(n, n - 4 + 6, 4);
    }
  }

  lemma {:induction false} TurnFour(n: nat, d: nat)
    requires n % 4 == 0 && n >= 16 && d < 10 && d % 2 == 0
    ensures Turn(n, d, 4) == n <==> (d % 4 == 2 ==> n % 8 == 0)
  {
    hide RoundTo;
    if d == 0 {
      TurnBelowHalf(n, d, 4);
    } else if d == 2 {
      TurnAtHalf(n, d, 4);
    } else if d == 4 {
      TurnAboveHalf(n, d, 4);
    } else if d == 6 {
      TurnSix(n);
    } else {
      Near(n - 8, n - 8, 4);
      Near(n, n - 8 + 8, 4);
    }
  }

  lemma {:induction false} TurnEight(n: nat, d: nat)
    requires n % 8 == 0 && n >= 32 && d < 10 && d % 2 == 0
    ensures Turn(n, d, 8) == n <==> (d == 4 ==> n % 16 == 0)
  {
    hide RoundTo, Turn;
    if d < 4 {
      TurnBelowHalf(n, d, 8);
    } else if d == 4 {
      TurnAtHalf(n, d, 8);
    } else {
      TurnAboveHalf(n, d, 8);
    }
  }

  lemma {:induction false} TurnSixteen(n: nat, d: nat)
    requires n % 16 == 0 && n >= 64 && d < 10 && d % 2 == 0
    ensures Turn(n, d, 16) == n <==> (d == 8 ==> n % 32 == 0)
  {
    hide RoundTo, Turn;
    if d < 8 {
      TurnBelowHalf(n, d, 16);
    } else {
      TurnAtHalf(n, d, 16);
    }
  }

  lemma {:induction false} TurnTwo(n: nat, d: nat)
    requires n % 2 == 0 && n >= 16 && d < 10 && d % 2 == 0
    ensures Turn(n, d, 2) == n
  {
    hide RoundTo;
    Near(n - d, n - d, 2);
    Near(n, n - d + d, 2);
  }

  // ---------------------------------------------------------- the last digit

  /** One turn of the loop, in the two binades the roundings fall into. */
  lemma {:induction false} TurnIs(p: nat, d: byte)
    requires IsDigit(d) && 10 * p + 16 < TWO57
    ensures RoundTo(p * 10, Ulp(p * 10)) + 9 < TWO57
    ensures var a := RoundTo(p * 10, Ulp(p * 10)) + (d - ZERO);
      AccumulateDigit(p, d) == RoundTo(a, Ulp(a))
  {
    var a := RoundTo(p * 10, Ulp(p * 10));
    RoundIs(p * 10);
    RoundToBounds(p * 10, Ulp(p * 10));
    RoundIs(a + (d - ZERO));
  }

  lemma {:induction false} RoundToBounds(m: nat, s: nat)
    requires s == 1 || SmallUlp(s)
    ensures RoundTo(m, s) <= m + s / 2 && m <= RoundTo(m, s) + s / 2
    ensures s == 1 ==> RoundTo(m, s) == m
  {
    if SmallUlp(s) {
      hide RoundTo;
      var q, r := m / s, m % s;
      Remainder(m, s);
      RoundAt(q, r, s);
      Times(q, s);
    }
  }

  lemma {:induction false} Remainder(m: nat, s: nat)
    requires s > 0
    ensures m == m / s * s + m % s
  {
  }

  /** Rounding stays at or above a multiple. */
  lemma {:induction false} NotBelow(b: nat, m: nat, s: nat)
    requires SmallUlp(s) && b % s == 0 && b <= m
    ensures RoundTo(m, s) >= b
  {
    if 2 * m < 2 * b + s {
      Near(b, m, s);
    } else {
      RoundToBounds(m, s);
    }
  }

  /** When 10 * p is in the binade of `n`, so is what the last digit is added
      to. */
  lemma {:induction false} StaysInBinade(p: nat, n: nat)
    requires 10 * p <= n < 10 * p + 10 && TWO53 <= n <= REACH && n % Ulp(n) == 0
    requires Ulp(p * 10) == Ulp(n) && TWO53 <= p * 10
    ensures Ulp(RoundTo(p * 10, Ulp(n)) + (n - 10 * p)) == Ulp(n)
  {
    hide RoundTo;
    RoundToBounds(p * 10, Ulp(n));
    NotBelow(if n < TWO54 then TWO53 else if n < TWO55 then TWO54 else if n < TWO56 then TWO55 else TWO56,
             p * 10, Ulp(n));
  }

  lemma {:induction false} SameBinade(p: nat, d: byte, n: nat)
    requires IsDigit(d) && n == 10 * p + (d - ZERO) && TWO53 <= 10 * p && n <= REACH && n % Ulp(n) == 0
    requires Ulp(p * 10) == Ulp(n)
    ensures AccumulateDigit(p, d) == Turn(n, d - ZERO, Ulp(n))
  {
    hide RoundTo, Ulp;
    TurnIs(p, d);
    StaysInBinade(p, n);
  }

  lemma {:induction false} IsEven(n: nat, h: nat)
    requires n == 2 * h
    ensures n % 2 == 0
  {
  }

  lemma {:induction false} EvenMultiple(n: nat, s: nat)
    requires SmallUlp(s) && n % s == 0
    ensures n % 2 == 0
  {
    var q := n / s;
    Divides(n, s);
    IsEven(n, if s == 2 then q else if s == 4 then 2 * q else if s == 8 then 4 * q else 8 * q);
  }

  lemma {:induction false} EvenLast(n: nat)
    requires n % 2 == 0
    ensures n % 10 % 2 == 0
  {
    var q, r := n / 10, n % 10;
    assert n == 2 * (5 * q) + r;
  }

  lemma {:induction false} EvenDigit(n: nat)
    requires TWO53 <= n && n % Ulp(n) == 0
    ensures n % 10 % 2 == 0
  {
    EvenMultiple(n, Ulp(n));
    EvenLast(n);
  }

  /** Which last digits are half the distance away. */
  lemma {:induction false} HalfDigit(d: nat)
    requires d < 10 && d % 2 == 0
    ensures 2 * (d % 2) != 2 && (2 * (d % 4) == 4 <==> d % 4 == 2)
    ensures (2 * (d % 8) == 8 <==> d == 4) && (2 * (d % 16) == 16 <==> d == 8)
  {
  }

  /** In one binade the turn keeps `n` exactly when it survives. */
  lemma {:induction false} TurnKeeps(n: nat, d: nat)
    requires TWO53 <= n <= REACH && n % Ulp(n) == 0 && d == n % 10
    ensures Turn(n, d, Ulp(n)) == n <==> (2 * (d % Ulp(n)) == Ulp(n) ==> n % (2 * Ulp(n)) == 0)
  {
    hide Turn;
    EvenDigit(n);
    HalfDigit(d);
    if n < TWO54 {
      TurnTwo(n, d);
    } else if n < TWO55 {
      TurnFour(n, d);
    } else if n < TWO56 {
      TurnEight(n, d);
    } else {
      TurnSixteen(n, d);
    }
  }

  /** Right above a power of two, where 10 * p is still below it. */
  lemma {:induction false} CrossBinade(p: nat, d: byte, n: nat)
    requires IsDigit(d) && n == 10 * p + (d - ZERO) && TWO53 <= n <= REACH && n % Ulp(n) == 0
    requires Ulp(p * 10) != Ulp(n)
    ensures AccumulateDigit(p, d) == n
    ensures 2 * ((d - ZERO) % Ulp(n)) != Ulp(n)
  {
    hide RoundTo;
    TurnIs(p, d);
    if n < TWO54 {
      RoundToBounds(p * 10, 1);
      Near(n, n, 2);
    } else if n < TWO55 {
      Near(p * 10, p * 10, 2);
      Near(n, n, 4);
    } else if n < TWO56 {
      Near(p * 10, p * 10, 4);
      Near(n, n, 8);
    } else {
      Near(p * 10 - 2, p * 10, 8);
      Near(n, n - 2, 8);
    }
  }

  /** Adding the last digit to an exact prefix gives the number exactly when
      it survives. */
  lemma {:induction false} LastDigit(p: nat, d: byte)
    requires IsDigit(d) && 10 * p + (d - ZERO) <= REACH
    ensures AccumulateDigit(p, d) == 10 * p + (d - ZERO) <==> Survives(10 * p + (d - ZERO))
  {
    var n := 10 * p + (d - ZERO);
    SurvivesIs(n);
    hide Survives, AccumulateDigit, RoundTo, IsDouble, Ulp;
    LastOf(p, d - ZERO);
    if n < TWO53 {
      UlpOne(n);
      SmallTurn(p, d);
    } else if n % Ulp(n) != 0 {
      TurnIsDouble(p, d);
    } else if Ulp(p * 10) == Ulp(n) {
      UlpTwo(p * 10, n);
      SameBinade(p, d, n);
      TurnKeeps(n, d - ZERO);
    } else {
      CrossBinade(p, d, n);
    }
  }

  lemma {:induction false} LastOf(p: nat, d: nat)
    requires d < 10
    ensures (10 * p + d) % 10 == d
  {
  }

  lemma {:induction false} UlpOne(n: nat)
    requires n < TWO53
    ensures Ulp(n) == 1
  {
  }

  lemma {:induction false} UlpTwo(m: nat, n: nat)
    requires Ulp(m) == Ulp(n) && n >= TWO53
    ensures m >= TWO53
  {
  }

  lemma {:induction false} SmallTurn(p: nat, d: byte)
    requires IsDigit(d) && 10 * p + (d - ZERO) < TWO53
    ensures AccumulateDigit(p, d) == 10 * p + (d - ZERO)
  {
  }

  lemma {:induction false} TurnIsDouble(p: nat, d: byte)
    requires IsDigit(d)
    ensures IsDouble(AccumulateDigit(p, d))
  {
    RoundIsDouble(Round(p * 10) + (d - ZERO));
  }

  /** Up to the reach, the digit loop ends with the number itself exactly when
      the number survives. */
  lemma {:induction false} AccumulateIsExact(ds: Text)
    requires AllDigits(ds) && Value(ds) <= REACH
    ensures Accumulate(ds) == Value(ds) <==> Survives(Value(ds))
  {
    if ds != [] {
      var p, d := ds[..|ds| - 1], ds[|ds| - 1];
      AccumulateIsExact(p);
      SurvivesIs(Value(p));
      assert Accumulate(p) == Value(p);
      LastDigit(Value(p), d);
    } else {
      SurvivesIs(0);
    }
  }

  lemma {:induction false} TurnBounded(p: nat, d: byte)
    requires IsDigit(d) && 10 * p + (d - ZERO) <= REACH
    ensures AccumulateDigit(p, d) < TWO57
  {
    hide RoundTo;
    TurnIs(p, d);
    var a := RoundTo(p * 10, Ulp(p * 10)) + (d - ZERO);
    RoundToBounds(p * 10, Ulp(p * 10));
    RoundToBounds(a, Ulp(a));
  }

  /** It never ends far from it. */
  lemma {:induction false} AccumulateBounded(ds: Text)
    requires AllDigits(ds) && Value(ds) <= REACH
    ensures Accumulate(ds) < TWO57
  {
    if ds != [] {
      var p, d := ds[..|ds| - 1], ds[|ds| - 1];
      AccumulateIsExact(p);
      SurvivesIs(Value(p));
      assert Accumulate(p) == Value(p);
      hide AccumulateDigit;
      TurnBounded(Value(p), d);
    }
  }

  // -------------------------------------------------------- at any magnitude

  lemma {:induction false} LowSplit(n: nat, j: nat, k: nat)
    requires j <= k && Low(n, k) == 0
    ensures Low(n, j) == 0
  {
    if j > 0 {
      LowSplit(n / 2, j - 1, k - 1);
    }
  }

  lemma {:induction false} LowAdd(a: nat, m: nat, k: nat)
    ensures Low(a + Shl(m, k), k) == Low(a, k)
  {
    if k > 0 {
      LowAdd(a / 2, m, k - 1);
    }
  }

  lemma {:induction false} ExcessBounds(n: nat, k: nat)
    ensures n >= Shl(TWO53, k) ==> Excess(n) > k
    ensures n < Shl(TWO53, k) ==> Excess(n) <= k
  {
    if k > 0 {
      ExcessBounds(n / 2, k - 1);
      ShlGrows(TWO53, k);
    }
  }

  /** 2^64 is 2^53 shifted by eleven bits, and 2^52 by twelve. */
  lemma {:induction false} ShlOfPower(c: nat)
    ensures Shl(TWO53, 11) == TWO64 && Shl(c * (TWO53 / 2), 12) == c * TWO64
  {
    assert Shl(1, 4) == 16 && Shl(1, 11) == 128 * Shl(1, 4) && Shl(1, 12) == 2 * Shl(1, 11);
    ShlTimes(TWO53, 11);
    ShlTimes(c * (TWO53 / 2), 12);
  }

  /** A double reduced to 64 bits is a double. */
  lemma {:induction false} WrapIsDouble(a: nat, c: nat, n: nat)
    requires IsDouble(a) && a == n + c * TWO64 && n < TWO64
    ensures IsDouble(n)
  {
    if c > 0 {
      ShlOfPower(c);
      ExcessBounds(a, 11);
      ExcessBounds(n, 11);
      LowSplit(a, 12, Excess(a));
      LowAdd(n, c * (TWO53 / 2), 12);
      LowSplit(n, Excess(n), 12);
    }
  }

  lemma {:induction false} StoredWraps(neg: bool, a: nat)
    ensures var v := Stored(neg, a);
      (v < 0 ==> neg) && Abs(v) < TWO64
      && exists c: int :: (if neg then -v else v) + c * TWO64 == a
  {
    if neg {
      var w := -(a as int) % TWO64;
      var q := -(a as int) / TWO64;
      assert -(a as int) == q * TWO64 + w;
      var c := if w >= TWO63 then -q - 1 else -q;
      assert -Stored(neg, a) + c * TWO64 == a;
    } else {
      assert a as int == a / TWO64 * TWO64 + a % TWO64;
      assert Stored(neg, a) + (a / TWO64) * TWO64 == a;
    }
  }

  /** Whatever the magnitude, a number that is stored as it was read is one a
      double holds. */
  lemma {:induction false} StoredIsDouble(v: int, a: nat)
    requires IsDouble(a) && Stored(v < 0, a) == v
    ensures IsDouble(Abs(v))
  {
    StoredWraps(v < 0, a);
    var c: int :| Abs(v) + c * TWO64 == a;
    assert c >= 0;
    WrapIsDouble(a, c, Abs(v));
  }

  // --------------------------------------------------- one digit at a time

  /** The last turn of the loop over the digits of a number. */
  lemma {:induction false} DecimalTurn(n: nat)
    requires n >= 10
    ensures Accumulate(Decimal(n)) == AccumulateDigit(Accumulate(Decimal(n / 10)), ZERO + n % 10)
  {
    var hd: Text, tl: Text := Decimal(n / 10), [ZERO + n % 10];
    assert Decimal(n) == hd + tl;
    assert (hd + tl)[..|hd + tl| - 1] == hd;
    hide Decimal, AccumulateDigit;
  }

  lemma {:induction false} RoundOfDouble(n: nat)
    requires IsDouble(n)
    ensures Round(n) == n
  {
    SplitBits(n, Excess(n));
  }

  lemma {:induction false} LowOfFive(n: nat, k: nat)
    requires Low(5 * n, k) == 0
    ensures Low(n, k) == 0
  {
    if k > 0 {
      assert 5 * n % 2 == 0;
      assert 5 * n / 2 == 5 * (n / 2);
      LowOfFive(n / 2, k - 1);
    }
  }

  lemma {:induction false} ExcessGrows(m: nat, n: nat)
    requires m <= n
    ensures Excess(m) <= Excess(n)
  {
    if m >= TWO53 {
      ExcessGrows(m / 2, n / 2);
    }
  }

  /** What ten times is a double is a double. */
  lemma {:induction false} DoubleOfTen(n: nat)
    requires IsDouble(10 * n)
    ensures IsDouble(n)
  {
    if n >= TWO53 {
      assert 10 * n / 2 == 5 * n && 10 * n % 2 == 0;
      assert Low(5 * n, Excess(5 * n)) == 0;
      ExcessGrows(n, 5 * n);
      LowSplit(5 * n, Excess(n), Excess(5 * n));
      LowOfFive(n, Excess(n));
    }
  }

  /** Zeros behind a number that is read exactly are read exactly as long as a
      double holds the whole. */
  lemma {:induction false} ZerosKept(m: nat, k: nat)
    requires m > 0 && Accumulate(Decimal(m)) == m && IsDouble(m * Pow10(k))
    ensures Accumulate(Decimal(m * Pow10(k))) == m * Pow10(k)
  {
    hide Accumulate, IsDouble, Round;
    if k > 0 {
      var x := m * Pow10(k - 1);
      TenTimesMore(m, k);
      DoubleOfTen(x);
      ZerosKept(m, k - 1);
      DecimalTurn(10 * x);
      RoundOfDouble(10 * x);
    } else {
      assert m * Pow10(0) == m;
    }
  }

  lemma {:induction false} TenTimesMore(m: nat, k: nat)
    requires m > 0 && k > 0
    ensures m * Pow10(k) == 10 * (m * Pow10(k - 1)) && m * Pow10(k - 1) > 0
  {
    assert Pow10(k - 1) > 0 by {
      PowPositive(k - 1);
    }
  }

  lemma {:induction false} PowPositive(k: nat)
    ensures Pow10(k) > 0
  {
    if k > 0 {
      PowPositive(k - 1);
    }
  }

  /** A number that survives, with any zeros behind it, is read exactly when a
      double holds the whole, at any magnitude. */
  lemma {:induction false} ZerosAreExact(m: nat, k: nat)
    requires 0 < m <= REACH && Survives(m)
    ensures Accumulate(Decimal(m * Pow10(k))) == m * Pow10(k) <==> IsDouble(m * Pow10(k))
  {
    AccumulateIsExact(Decimal(m));
    AccumulateIsDouble(Decimal(m * Pow10(k)));
    hide Survives, IsDouble;
    if IsDouble(m * Pow10(k)) {
      ZerosKept(m, k);
    }
  }
}

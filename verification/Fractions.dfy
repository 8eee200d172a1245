/** Numbers of RFC 8259 that no double holds, and documents that keep all their
    digits and denote such a number. */
module Fractions {
  import opened Bytes
  import opened Numbers
  import opened NumberText
  import opened Grammar
  import opened Standard

  /** 2^e. */
  function Pow2(e: int): (x: real)
    ensures x > 0.0
    decreases if e < 0 then -e else e
  {
    if e == 0 then 1.0 else if e > 0 then 2.0 * Pow2(e - 1) else Pow2(e + 1) / 2.0
  }

  /** The finite values of a 64-bit double. */
  ghost predicate FiniteDouble(x: real) {
    exists m: int, e: int :: IsScaled(x, m, e)
  }

  predicate IsScaled(x: real, m: int, e: int) {
    -TWO53 < m < TWO53 && -1074 <= e <= 971 && x == m as real * Pow2(e)
  }

  /** 2^k for a natural k is an integer that five does not divide. */
  lemma {:induction false} NotFive(k: nat) returns (p: nat)
    ensures Pow2(k) == p as real && p % 5 != 0
  {
    if k == 0 {
      p := 1;
    } else {
      var q := NotFive(k - 1);
      p := 2 * q;
    }
  }

  lemma {:induction false} PowOpposite(k: nat)
    ensures Pow2(-(k as int)) * Pow2(k) == 1.0
    decreases k
  {
    if k > 0 {
      PowOpposite(k - 1);
      assert -(k as int) + 1 == -((k - 1) as int);
      Halved(Pow2(-(k as int) + 1), Pow2(k - 1));
    }
  }

  lemma {:induction false} Halved(x: real, y: real)
    requires x * y == 1.0
    ensures x / 2.0 * (2.0 * y) == 1.0
  {
  }

  /** A double is a fraction whose denominator five does not divide. */
  lemma {:induction false} DoubleFraction(x: real, m: int, e: int) returns (p: nat, q: int)
    requires x == m as real * Pow2(e)
    ensures p % 5 != 0 && x * p as real == q as real
  {
    if e >= 0 {
      p := NotFive(e);
      p, q := 1, m * p;
    } else {
      p := NotFive(-e);
      PowOpposite(-e);
      TimesInverse(m as real, Pow2(e), Pow2(-e));
      q := m;
    }
  }

  lemma {:induction false} TimesInverse(m: real, x: real, y: real)
    requires x * y == 1.0
    ensures m * x * y == m
  {
  }

  lemma {:induction false} TenTimes(p: nat, q: int)
    requires 0.1 * p as real == q as real
    ensures p % 5 == 0
  {
    assert p == 10 * q;
  }

  lemma {:induction false} TenthIsNoDouble()
    ensures !FiniteDouble(0.1)
  {
    forall m: int, e: int ensures !IsScaled(0.1, m, e) {
      if IsScaled(0.1, m, e) {
        var p, q := DoubleFraction(0.1, m, e);
        TenTimes(p, q);
      }
    }
  }

  lemma {:induction false} PowGrows(a: int, b: int)
    requires a <= b
    ensures Pow2(a) <= Pow2(b)
    decreases b - a
  {
    if a < b {
      PowGrows(a + 1, b);
      assert Pow2(a + 1) == 2.0 * Pow2(a);
    }
  }

  lemma {:induction false} PowSum(a: int, k: nat)
    ensures Pow2(a) * Pow2(k) == Pow2(a + k)
    decreases k
  {
    if k > 0 {
      PowSum(a, k - 1);
      assert Pow2(a + k) == 2.0 * Pow2(a + (k - 1));
    }
  }

  /** Ten is more than eight. */
  lemma {:induction false} TenPower(x: real, n: nat)
    requires x >= 0.0
    ensures Scale(x, n) >= x * Pow2(3 * n)
    decreases n
  {
    if n > 0 {
      TenPower(10.0 * x, n - 1);
      assert Pow2(3 * n) == 2.0 * Pow2(3 * n - 1);
      assert Pow2(3 * n - 1) == 2.0 * Pow2(3 * n - 2);
      assert Pow2(3 * n - 2) == 2.0 * Pow2(3 * n - 3);
      Larger(x, Pow2(3 * n - 3));
    }
  }

  lemma {:induction false} Larger(x: real, y: real)
    requires x >= 0.0 && y > 0.0
    ensures 10.0 * x * y >= x * (8.0 * y)
  {
    assert x * y >= 0.0;
  }

  lemma {:induction false} PowSixteen()
    ensures Pow2(16) == 65536.0
  {
    assert Pow2(4) == 16.0;
    hide Pow2;
    PowSum(4, 4);
    PowSum(8, 8);
  }

  lemma {:induction false} PowFiftyThree()
    ensures Pow2(53) == TWO53 as real
  {
    PowSixteen();
    assert Pow2(5) == 32.0;
    hide Pow2;
    PowSum(16, 16);
    PowSum(32, 16);
    PowSum(48, 5);
    assert TWO53 as real == 65536.0 * 65536.0 * 65536.0 * 32.0;
  }

  lemma {:induction false} DoubleBound(x: real, m: int, e: int)
    requires IsScaled(x, m, e)
    ensures x <= Pow2(1024)
  {
    PowFiftyThree();
    hide Pow2;
    PowGrows(e, 971);
    PowSum(53, 971);
    MoreTimes(m as real, Pow2(53), Pow2(e), Pow2(971));
  }

  lemma {:induction false} MoreTimes(a: real, b: real, x: real, y: real)
    requires a <= b && 0.0 <= b && 0.0 <= x <= y
    ensures a * x <= b * y
  {
    assert (b - a) * x >= 0.0 && b * (y - x) >= 0.0;
  }

  lemma {:induction false} HugeIsNoDouble()
    ensures !FiniteDouble(Scale(1.0, 400))
  {
    var x := Scale(1.0, 400);
    TenPower(1.0, 400);
    PowGrows(1025, 1200);
    assert Pow2(1025) == 2.0 * Pow2(1024);
    forall m: int, e: int ensures !IsScaled(x, m, e) {
      if IsScaled(x, m, e) {
        DoubleBound(x, m, e);
      }
    }
  }

  /** The document 0.1 keeps its digits and denotes a number no double holds. */
  lemma {:induction false} TenthIsNotStored()
    ensures var l := NumLit(false, [48], [49], NoExp);
      && Rfc(DNum(l)) && Valid(DNum(l)) && Interoperable(DNum(l)) && Lossless(DNum(l))
      && Rational(l) == 0.1 && !FiniteDouble(Rational(l))
  {
    var l := NumLit(false, [48], [49], NoExp);
    TenthIsNoDouble();
    hide FiniteDouble;
    SpellsOne([48, 49]);
    assert l.ints + l.fracs == [48, 49] && l.fracs[..0] == [] && l.ints[..0] == [];
    assert Positional(l.ints, 0) == 0.0 + Scale(0.0, 0);
    assert Positional(l.fracs, -1) == 0.0 + Scale(1.0, -1);
    assert Scale(1.0, -1) == Scale(0.1, 0) == 0.1;
  }

  lemma {:induction false} SpellsOne(ds: Text)
    requires AllDigits(ds) && (ds == [49] || ds == [48, 49])
    ensures Value(ds) == 1 && Survives(Value(ds)) && Value(ds) <= REACH
  {
    assert [49][..0] == [] && [48][..0] == [] && [48, 49][..1] == [48];
  }

  /** The same for the document 1e400, which is larger than every double. */
  lemma {:induction false} HugeIsNotStored()
    ensures var l := NumLit(false, [49], [], Exp(false, Unsigned, [52, 48, 48]));
      && Rfc(DNum(l)) && Valid(DNum(l)) && Interoperable(DNum(l)) && Lossless(DNum(l))
      && Rational(l) == Scale(1.0, 400) && !FiniteDouble(Rational(l))
  {
    var l := NumLit(false, [49], [], Exp(false, Unsigned, [52, 48, 48]));
    HugeIsNoDouble();
    hide FiniteDouble, Scale;
    SpellsOne([49]);
    assert l.ints + l.fracs == [49] && l.ints[..0] == [];
    assert Value([52, 48, 48]) == 400 by {
      assert [52, 48, 48][..2] == [52, 48] && [52, 48][..1] == [52] && [52][..0] == [];
    }
    assert Rational(l) == Scale(1.0, 400);
  }
}

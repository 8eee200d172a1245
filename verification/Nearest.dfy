/** The rounding of the model is the one of IEEE 754: to the nearest double, and
    to the even one of two that are equally near. */
module Nearest {
  import opened Bytes
  import opened Bits
  import opened Numbers
  import opened Doubles

  lemma {:induction false} ShlIs(q: nat, k: nat)
    ensures Shl(q, k) == q * UlpOf(k)
  {
    ShlOne(k);
    ShlTimes(q, k);
  }

  lemma {:induction false} ShlOne(k: nat)
    ensures Shl(1, k) == UlpOf(k)
  {
    if k > 0 {
      ShlOne(k - 1);
    }
  }

  /** `n` is a number of 53 bits times 2^k. */
  predicate IsShort(n: nat, c: nat, k: nat) {
    c < 0x20_0000_0000_0000 && n == c * UlpOf(k)
  }

  /** The doubles are the numbers of 53 bits times a power of two. */
  lemma {:induction false} IsDoubleIs(n: nat)
    ensures IsDouble(n) <==> exists c: nat, k: nat :: IsShort(n, c, k)
  {
    if IsDouble(n) {
      var k := Excess(n);
      SplitBits(n, k);
      ShlIs(Shr(n, k), k);
      if n >= TWO53 {
        Leading(n);
      }
      assert IsShort(n, Shr(n, k), k);
    }
    forall c: nat, k: nat | IsShort(n, c, k) ensures IsDouble(n) {
      ShlIs(c, k);
      ShortIsDouble(c, k);
    }
  }

  lemma {:induction false} ShortIsDouble(c: nat, k: nat)
    requires c < TWO53
    ensures IsDouble(Shl(c, k))
  {
    var n := Shl(c, k);
    if k > 0 {
      ShlBelow(c, TWO53, k);
      ExcessBounds(n, k);
    }
    LowOfShl(c, k);
    if Excess(n) <= k {
      LowSplit(n, Excess(n), k);
    }
  }

  lemma {:induction false} ShlBelow(a: nat, b: nat, k: nat)
    requires a < b
    ensures Shl(a, k) < Shl(b, k)
  {
    if k > 0 {
      ShlBelow(a, b, k - 1);
    }
  }

  lemma {:induction false} Factor(c: nat, q: nat, u: nat)
    requires u > 0
    ensures c <= q ==> c * u <= q * u
    ensures c > q ==> c * u >= (q + 1) * u
  {
    if c <= q {
      assert (q - c) * u >= 0;
    } else {
      assert (c - q - 1) * u >= 0;
    }
  }

  /** Between two neighbouring multiples of the distance lies no double. */
  lemma {:induction false} NoDoubleBetween(m: nat, q: nat, k: nat)
    requires IsDouble(m) && TWO53 / 2 <= q < TWO53
    ensures m <= q * UlpOf(k) || m >= (q + 1) * UlpOf(k)
  {
    if m > q * UlpOf(k) {
      if k > 0 {
        AtLeastHalf(q, k, m);
        ExcessBounds(m, k - 1);
      }
      LowSplit(m, k, Excess(m));
      SplitBits(m, k);
      ShlIs(Shr(m, k), k);
      Factor(Shr(m, k), q, UlpOf(k));
    }
  }

  lemma {:induction false} AtLeastHalf(q: nat, k: nat, m: nat)
    requires k > 0 && TWO53 / 2 <= q && q * UlpOf(k) < m
    ensures m >= Shl(TWO53, k - 1)
  {
    ShlIs(TWO53, k - 1);
    Scaled(q, UlpOf(k - 1));
  }

  lemma {:induction false} Scaled(q: nat, u: nat)
    requires TWO53 / 2 <= q
    ensures q * (2 * u) >= TWO53 * u
  {
    assert q * (2 * u) == 2 * q * u;
    assert (2 * q - TWO53) * u >= 0;
  }

  predicate IsTimes(r: nat, c: nat, s: nat) { r == c * s }

  /** `r` is a double that no double is nearer to `n` than, and of two that are
      equally near it is the one that is an even multiple of the distance. */
  ghost predicate IsNearest(r: nat, n: nat) {
    && IsDouble(r)
    && (forall m: nat | IsDouble(m) :: Abs(r - n) <= Abs(m - n))
    && (forall m: nat | IsDouble(m) && m != r && Abs(m - n) == Abs(r - n) ::
          exists c: nat :: IsTimes(r, c, 2 * UlpOf(Excess(n))))
  }

  /** The two multiples of the distance around a number that has more than 53
      bits: every double is one of them or lies outside. */
  lemma {:induction false} Around(n: nat) returns (q: nat, r: nat)
    requires n > TWO53
    ensures q == Shr(n, Excess(n)) && r == Low(n, Excess(n))
    ensures var u := UlpOf(Excess(n));
      && n == q * u + r && r < u && (q + 1) * u == q * u + u
      && Round(n) == (if 2 * r < u || (2 * r == u && q % 2 == 0) then q * u else q * u + u)
      && forall m: nat | IsDouble(m) :: m <= q * u || m >= q * u + u
  {
    var k := Excess(n);
    q, r := Shr(n, k), Low(n, k);
    SplitBits(n, k);
    ShlIs(q, k);
    ShlIs(q + 1, k);
    ShlOne(k);
    Leading(n);
    assert (q + 1) * UlpOf(k) == q * UlpOf(k) + UlpOf(k);
    forall m: nat | IsDouble(m) ensures m <= q * UlpOf(k) || m >= q * UlpOf(k) + UlpOf(k) {
      NoDoubleBetween(m, q, k);
    }
  }

  /** At any magnitude `Round` gives the nearest double, ties to even. */
  lemma {:induction false} RoundIsNearest(n: nat)
    ensures IsNearest(Round(n), n)
  {
    RoundIsDouble(n);
    if n > TWO53 {
      var q, r := Around(n);
      var u := UlpOf(Excess(n));
      hide IsDouble, Round, UlpOf, Excess;
      if 2 * r == u {
        var e := if q % 2 == 0 then q else q + 1;
        Halves(e, u);
        assert IsTimes(Round(n), e / 2, 2 * u);
      }
    }
  }

  lemma {:induction false} Halves(e: nat, u: nat)
    requires e % 2 == 0
    ensures e * u == e / 2 * (2 * u)
  {
    var h := e / 2;
    assert e == 2 * h;
  }

  lemma {:induction false} OddIsNotEven(o: nat, c: nat, u: nat)
    requires o % 2 == 1 && u > 0
    ensures o * u != c * (2 * u)
  {
    assert c * (2 * u) == (2 * c) * u;
    if o < 2 * c {
      Factor(2 * c, o, u);
      assert (o + 1) * u == o * u + u;
    } else {
      Factor(o, 2 * c, u);
      assert (2 * c + 1) * u == 2 * c * u + u;
    }
  }

  /** There is one nearest double only. */
  lemma {:induction false} NearestIsOne(a: nat, n: nat)
    requires IsNearest(a, n)
    ensures a == Round(n)
  {
    RoundIsNearest(n);
    if n > TWO53 && a != Round(n) {
      var q, r := Around(n);
      var u := UlpOf(Excess(n));
      assert Abs(a - n) == Abs(Round(n) - n);
      var c: nat :| IsTimes(a, c, 2 * u);
      hide IsDouble, Round, UlpOf, Excess, IsNearest;
      assert a == q * u || a == q * u + u;
      OddIsNotEven(if q % 2 == 1 then q else q + 1, c, u);
      assert false;
    }
  }

  /** One turn of the digit loop is the nearest double to the sum of the digit
      and the nearest double to ten times the accumulator. */
  lemma {:induction false} TurnIsNearest(n: nat, d: byte, x: nat)
    requires IsDigit(d) && IsNearest(x, 10 * n)
    ensures IsNearest(AccumulateDigit(n, d), x + Place(d, DIGITS))
  {
    NearestIsOne(x, 10 * n);
    RoundIsNearest(Round(n * 10) + (d - ZERO));
    DigitIs(d);
    hide IsNearest, Round;
  }
}

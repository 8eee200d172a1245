/** Bitwise `|`, `&` and shifts on unsigned numbers, and the few masks
    cJSON.c uses. */
module Bits {

  function Or(a: nat, b: nat): nat
    decreases a
  {
    if a == 0 then b
    else if b == 0 then a
    else 2 * Or(a / 2, b / 2) + (if a % 2 == 1 || b % 2 == 1 then 1 else 0)
  }

  function And(a: nat, b: nat): nat
    decreases a
  {
    if a == 0 || b == 0 then 0
    else 2 * And(a / 2, b / 2) + (if a % 2 == 1 && b % 2 == 1 then 1 else 0)
  }

  function Shl(a: nat, k: nat): nat {
    if k == 0 then a else 2 * Shl(a, k - 1)
  }

  function Shr(a: nat, k: nat): nat {
    if k == 0 then a else Shr(a / 2, k - 1)
  }

  /** The low `k` bits. */
  function Low(a: nat, k: nat): nat {
    if k == 0 then 0 else 2 * Low(a / 2, k - 1) + a % 2
  }

  /** Oring a number into cleared low bits adds it. */
  lemma {:induction false} OrDisjoint(a: nat, b: nat, k: nat)
    requires b < Shl(1, k)
    ensures Or(Shl(a, k), b) == Shl(a, k) + b
  {
    if k > 0 {
      OrDisjoint(a, b / 2, k - 1);
    }
  }

  /** Bits shifted left together are ored and then shifted. */
  lemma {:induction false} OrShift(a: nat, b: nat, k: nat)
    ensures Or(Shl(a, k), Shl(b, k)) == Shl(Or(a, b), k)
  {
    if k > 0 {
      OrShift(a, b, k - 1);
    }
  }

  /** Setting bit `k` adds 2^k exactly when the bit was clear. */
  lemma {:induction false} OrBit(a: nat, k: nat)
    ensures Or(a, Shl(1, k)) == if Shr(a, k) % 2 == 1 then a else a + Shl(1, k)
  {
    if k > 0 {
      OrBit(a / 2, k - 1);
      if a == 0 {
        LowOfShl(0, k);
      }
    }
  }

  /** A mask `c` above `k` ones. */
  function Mask(c: nat, k: nat): nat {
    if k == 0 then c else 2 * Mask(c, k - 1) + 1
  }

  /** Masking with `k` ones below `c` keeps the low `k` bits. */
  lemma {:induction false} AndMask(a: nat, c: nat, k: nat)
    ensures And(a, Mask(c, k)) == Shl(And(Shr(a, k), c), k) + Low(a, k)
  {
    if a == 0 {
      LowOfShl(0, k);
    } else if k > 0 {
      AndMask(a / 2, c, k - 1);
    }
  }

  /** Setting the bits `c` and masking with `c` above `k` ones leaves `c` above
      the low `k` bits. */
  lemma {:induction false} MaskAfterOr(a: nat, c: nat, k: nat)
    ensures And(Or(a, Shl(c, k)), Mask(c, k)) == Shl(c, k) + Low(a, k)
  {
    OrLowBits(a, c, k);
    AndAbsorbs(Shr(a, k), c);
    AndMask(Or(a, Shl(c, k)), c, k);
  }

  lemma {:induction false} ShlTimes(a: nat, k: nat)
    ensures Shl(a, k) == a * Shl(1, k)
  {
    if k > 0 {
      ShlTimes(a, k - 1);
    }
  }

  /** A number is its high bits above its low bits. */
  lemma {:induction false} SplitBits(a: nat, k: nat)
    ensures a == Shl(Shr(a, k), k) + Low(a, k)
    ensures Low(a, k) < Shl(1, k)
  {
    if k > 0 {
      SplitBits(a / 2, k - 1);
    }
  }

  lemma {:induction false} OrLowBits(a: nat, b: nat, k: nat)
    ensures Low(Or(a, Shl(b, k)), k) == Low(a, k)
    ensures Shr(Or(a, Shl(b, k)), k) == Or(Shr(a, k), b)
  {
    if k > 0 {
      OrLowBits(a / 2, b, k - 1);
      if a == 0 {
        LowOfShl(b, k);
      }
    }
  }

  lemma {:induction false} LowOfShl(b: nat, k: nat)
    ensures Low(Shl(b, k), k) == 0 && Shr(Shl(b, k), k) == b
    ensures Shl(0, k) == 0 && Shr(0, k) == 0 && Low(0, k) == 0
  {
    if k > 0 {
      LowOfShl(b, k - 1);
    }
  }

  lemma {:induction false} OrHalves(a: nat, b: nat)
    ensures Or(a, b) / 2 == Or(a / 2, b / 2)
    ensures Or(a, b) % 2 == 1 <==> a % 2 == 1 || b % 2 == 1
  {
  }

  lemma {:induction false} AndHalves(a: nat, b: nat)
    ensures And(a, b) == 2 * And(a / 2, b / 2) + (if a % 2 == 1 && b % 2 == 1 then 1 else 0)
  {
  }

  lemma {:induction false} AndAbsorbs(a: nat, b: nat)
    ensures And(Or(a, b), b) == b
  {
    if b > 0 {
      AndAbsorbs(a / 2, b / 2);
      OrHalves(a, b);
      AndHalves(Or(a, b), b);
      hide Or, And;
    }
  }

  lemma {:induction false} OrSymmetric(a: nat, b: nat)
    ensures Or(a, b) == Or(b, a)
  {
    if a > 0 && b > 0 {
      OrSymmetric(a / 2, b / 2);
    }
  }
}

/** UTF-16 escapes to UTF-8: the `\u` branch of `parse_string`, against the
    encoding of section 3 of RFC 3629 and the surrogate arithmetic of section
    2.2 of RFC 2781. */
module Transcode {
  import opened Bytes
  import opened Bits

  predicate IsHigh(u: nat) { 0xD800 <= u <= 0xDBFF }

  predicate IsLow(u: nat) { 0xDC00 <= u <= 0xDFFF }

  /** The two ranges of 1024 surrogates, one behind the other. */
  lemma {:induction false} SurrogatesAre(u: nat)
    ensures IsHigh(u) <==> u / 0x400 == 0xD800 / 0x400
    ensures IsLow(u) <==> u / 0x400 == 0xDC00 / 0x400
  {
  }

  // ------------------------------------------------------------ the source

  /** The two ten-bit halves of a surrogate pair, put together under bit 16 with
      bitwise ors. */
  function CombineSurrogates(uc: nat, uc2: nat): nat {
    Or(Or(0x10000, And(uc, 0x3FF) * 1024), And(uc2, 0x3FF))
  }

  /** A continuation byte: the low six bits under the mark. */
  function Continuation(uc: nat): byte {
    And(Or(uc, 0x80), 0xBF) % 256
  }

  /** The first byte: what is left of the code under the mark of its length. */
  function FirstByte(uc: nat, len: nat): byte
    requires 1 <= len <= 4
  {
    Or(uc, if len == 1 then 0x00 else if len == 2 then 0xC0 else if len == 3 then 0xE0 else 0xF0) % 256
  }

  function EncodedLength(uc: nat): (len: nat)
    ensures 1 <= len <= 4
  {
    if uc < 0x80 then 1 else if uc < 0x800 then 2 else if uc < 0x10000 then 3 else 4
  }

  /** The bytes the fall-through switch writes for `len`, last byte first. */
  function EncodeTail(uc: nat, len: nat, mark: nat): (r: Text)
    requires 1 <= len <= mark <= 4
    ensures |r| == len
  {
    if len == 1 then [FirstByte(uc, mark)]
    else EncodeTail(uc / 64, len - 1, mark) + [Continuation(uc)]
  }

  function Encode(uc: nat): (r: Text)
    ensures |r| == EncodedLength(uc)
  {
    EncodeTail(uc, EncodedLength(uc), EncodedLength(uc))
  }

  // ---------------------------------------------------------- the standards

  /** RFC 3629, section 3. */
  function Utf8(cp: nat): Text
    requires cp < 0x110000
  {
    if cp < 0x80 then [cp]
    else if cp < 0x800 then [0xC0 + cp / 64, 0x80 + cp % 64]
    else if cp < 0x10000 then [0xE0 + cp / 4096, 0x80 + cp / 64 % 64, 0x80 + cp % 64]
    else [0xF0 + cp / 262144, 0x80 + cp / 4096 % 64, 0x80 + cp / 64 % 64, 0x80 + cp % 64]
  }

  /** RFC 2781, section 2.2. */
  function PairScalar(hi: nat, lo: nat): (cp: nat)
    requires IsHigh(hi) && IsLow(lo)
    ensures 0x10000 <= cp < 0x110000
  {
    0x10000 + (hi - 0xD800) * 1024 + (lo - 0xDC00)
  }

  // ------------------------------------------------------------ comparisons

  lemma {:induction false} SplitSix(a: nat)
    ensures Shr(a, 6) == a / 64 && Low(a, 6) == a % 64
  {
    SplitBits(a, 6);
    ShlTimes(Shr(a, 6), 6);
    assert Shl(1, 6) == 64;
  }

  /** `x & 0x3FF` keeps ten bits. */
  lemma {:induction false} AndLowTen(x: nat)
    ensures And(x, 0x3FF) == x % 1024
  {
    assert Mask(0, 10) == 0x3FF;
    AndMask(x, 0, 10);
    LowOfShl(0, 10);
    LowTen(x);
  }

  lemma {:induction false} LowTen(x: nat)
    ensures Low(x, 10) == x % 1024
  {
    assert Shl(1, 10) == 1024;
    SplitBits(x, 10);
    ShlTimes(Shr(x, 10), 10);
    LowHalf(x, Shr(x, 10), Low(x, 10));
  }

  /** `(x | 0x80) & 0xBF` is a continuation byte carrying six bits. */
  lemma {:induction false} ContinuationBits(uc: nat)
    ensures Continuation(uc) == 0x80 + uc % 64
  {
    assert Shl(2, 6) == 0x80 && Mask(2, 6) == 0xBF;
    MaskAfterOr(uc, 2, 6);
    SplitSix(uc);
  }

  lemma {:induction false} OrMark(x: nat, a: nat, k: nat)
    requires x < Shl(1, k)
    ensures Or(x, Shl(a, k)) == Shl(a, k) + x
  {
    OrDisjoint(a, x, k);
    OrSymmetric(x, Shl(a, k));
  }

  lemma {:induction false} FirstByteOne(x: nat)
    requires x < 0x80
    ensures FirstByte(x, 1) == x
  {
    assert Or(x, 0) == x;
  }

  lemma {:induction false} FirstByteTwo(x: nat)
    requires x < 32
    ensures FirstByte(x, 2) == 0xC0 + x
  {
    assert Shl(6, 5) == 0xC0 && Shl(1, 5) == 32;
    OrMark(x, 6, 5);
  }

  lemma {:induction false} FirstByteThree(x: nat)
    requires x < 16
    ensures FirstByte(x, 3) == 0xE0 + x
  {
    assert Shl(14, 4) == 0xE0 && Shl(1, 4) == 16;
    OrMark(x, 14, 4);
  }

  lemma {:induction false} FirstByteFour(x: nat)
    requires x < 8
    ensures FirstByte(x, 4) == 0xF0 + x
  {
    assert Shl(30, 3) == 0xF0 && Shl(1, 3) == 8;
    OrMark(x, 30, 3);
  }

  lemma {:induction false} EncodeTwo(uc: nat)
    requires uc / 64 < 32
    ensures EncodeTail(uc, 2, 2) == [0xC0 + uc / 64, 0x80 + uc % 64]
  {
    FirstByteTwo(uc / 64);
    ContinuationBits(uc);
    assert EncodeTail(uc / 64, 1, 2) == [FirstByte(uc / 64, 2)];
  }

  lemma {:induction false} EncodeThree(uc: nat)
    requires uc / 64 / 64 < 16
    ensures EncodeTail(uc, 3, 3) == [0xE0 + uc / 64 / 64, 0x80 + uc / 64 % 64, 0x80 + uc % 64]
  {
    var c := uc / 64;
    FirstByteThree(c / 64);
    ContinuationBits(c);
    ContinuationBits(uc);
    assert EncodeTail(c / 64, 1, 3) == [FirstByte(c / 64, 3)];
    assert EncodeTail(c, 2, 3) == [FirstByte(c / 64, 3)] + [Continuation(c)];
  }

  lemma {:induction false} EncodeFour(uc: nat)
    requires uc / 64 / 64 / 64 < 8
    ensures EncodeTail(uc, 4, 4)
         == [0xF0 + uc / 64 / 64 / 64, 0x80 + uc / 64 / 64 % 64, 0x80 + uc / 64 % 64, 0x80 + uc % 64]
  {
    var c, d := uc / 64, uc / 64 / 64;
    FirstByteFour(d / 64);
    ContinuationBits(d);
    ContinuationBits(c);
    ContinuationBits(uc);
    assert EncodeTail(d / 64, 1, 4) == [FirstByte(d / 64, 4)];
    assert EncodeTail(d, 2, 4) == [FirstByte(d / 64, 4)] + [Continuation(d)];
    assert EncodeTail(c, 3, 4) == EncodeTail(d, 2, 4) + [Continuation(c)];
  }

  /** The switch writes the UTF-8 encoding of every code it is given. */
  lemma {:induction false} EncodeIsUtf8(uc: nat)
    requires uc < 0x110000
    ensures Encode(uc) == Utf8(uc)
  {
    assert uc / 64 / 64 == uc / 4096;
    assert uc / 4096 / 64 == uc / 262144;
    if uc < 0x80 {
      FirstByteOne(uc);
    } else if uc < 0x800 {
      EncodeTwo(uc);
    } else if uc < 0x10000 {
      EncodeThree(uc);
    } else {
      EncodeFour(uc);
    }
  }

  lemma {:induction false} OrOnes(y: nat)
    ensures Or(y, 0xF) / 8 % 2 == 1
  {
    OrHalves(y, 0xF);
    OrHalves(y / 2, 0x7);
    OrHalves(y / 2 / 2, 0x3);
    OrHalves(y / 2 / 2 / 2, 0x1);
    hide Or;
    assert Or(y, 0xF) / 2 / 2 / 2 == Or(y / 2 / 2 / 2, 0x1);
  }

  /** The mark of four bytes sets bit 7, whatever the code. */
  lemma {:induction false} MarkedFour(x: nat)
    ensures FirstByte(x, 4) >= 0x80
  {
    assert Shl(0xF, 4) == 0xF0;
    OrLowBits(x, 0xF, 4);
    OrOnes(Shr(x, 4));
    SplitBits(Or(x, 0xF0), 4);
    ShlTimes(Shr(Or(x, 0xF0), 4), 4);
    assert Shl(1, 4) == 16;
    hide Or, Shr, Shl, Low;
    HighBit(Or(x, 0xF0), Shr(Or(x, 0xF0), 4));
  }

  lemma {:induction false} HighBit(z: nat, q: nat)
    requires q * 16 <= z < q * 16 + 16 && q / 8 % 2 == 1
    ensures z % 256 >= 0x80
  {
    var c, b, r := q / 16, q % 8, z - q * 16;
    assert q == 16 * c + 8 + b;
    assert z == 256 * c + (128 + 16 * b + r);
    assert z % 256 == 128 + 16 * b + r;
  }

  /** No byte of a code other than zero is a NUL, even when the code is past
      the last one of Unicode. */
  lemma {:induction false} EncodeIsNulFree(uc: nat)
    requires uc != 0
    ensures 0 !in Encode(uc)
  {
    if uc < 0x110000 {
      EncodeIsUtf8(uc);
      hide Encode;
    } else {
      var c := uc / 64;
      var d := c / 64;
      MarkedFour(d / 64);
      ContinuationBits(uc);
      ContinuationBits(c);
      ContinuationBits(d);
      hide Continuation, FirstByte;
      assert EncodeTail(d / 64, 1, 4) == [FirstByte(d / 64, 4)];
      assert EncodeTail(d, 2, 4) == [FirstByte(d / 64, 4)] + [Continuation(d)];
      assert EncodeTail(c, 3, 4) == EncodeTail(d, 2, 4) + [Continuation(c)];
      assert EncodeTail(uc, 4, 4) == EncodeTail(c, 3, 4) + [Continuation(uc)];
    }
  }

  /** `0x10000 | (h << 10)` forces bit 16. */
  lemma {:induction false} OrPlaneBit(h: nat)
    requires h < 1024
    ensures Or(0x10000, h * 1024) == 1024 * if h / 64 % 2 == 1 then h else h + 64
  {
    OrSixtyFour(h);
    assert Shl(64, 10) == 0x10000;
    OrShift(64, h, 10);
    ShlTen(h);
    ShlTen(Or(64, h));
  }

  lemma {:induction false} OrSixtyFour(h: nat)
    ensures Or(64, h) == if h / 64 % 2 == 1 then h else h + 64
  {
    assert Shl(1, 6) == 64;
    OrSymmetric(64, h);
    OrBit(h, 6);
    SplitSix(h);
  }

  lemma {:induction false} ShlTen(a: nat)
    ensures Shl(a, 10) == a * 1024
  {
    assert Shl(1, 10) == 1024;
    ShlTimes(a, 10);
  }

  lemma {:induction false} OrLowTen(m: nat, l: nat)
    requires l < 1024
    ensures Or(1024 * m, l) == 1024 * m + l
  {
    assert Shl(1, 10) == 1024;
    ShlTimes(m, 10);
    OrDisjoint(m, l, 10);
  }

  /** Bit 6 of the high surrogate's payload: bit 16 of the code point's offset
      from 0x10000. */
  predicate PlaneBitSet(hi: nat)
    requires IsHigh(hi)
  {
    (hi - 0xD800) / 64 % 2 == 1
  }

  /** The value the source computes from a surrogate pair: bit 16 is forced
      to one instead of 0x10000 being added. */
  lemma {:induction false} CombineValue(hi: nat, lo: nat)
    requires IsHigh(hi) && IsLow(lo)
    ensures CombineSurrogates(hi, lo)
         == PairScalar(hi, lo) - if PlaneBitSet(hi) then 0x10000 else 0
    ensures 0x10000 <= CombineSurrogates(hi, lo) < 0x110000
  {
    hide Or, And;
    var h, l := hi - 0xD800, lo - 0xDC00;
    PayloadOf(hi, 54, h);
    PayloadOf(lo, 55, l);
    JoinHalves(h, l);
    PlaneBitOf(h);
  }

  lemma {:induction false} PlaneBitOf(h: nat)
    ensures h / 64 % 2 == 1 ==> h >= 64
  {
  }

  lemma {:induction false} PayloadOf(u: nat, high: nat, low: nat)
    requires u == 1024 * high + low && low < 1024
    ensures And(u, 0x3FF) == low
  {
    LowHalf(u, high, low);
    AndLowTen(u);
  }

  lemma {:induction false} LowHalf(u: nat, high: nat, low: nat)
    requires u == 1024 * high + low && low < 1024
    ensures u % 1024 == low
  {
  }

  lemma {:induction false} JoinHalves(h: nat, l: nat)
    requires h < 1024 && l < 1024
    ensures Or(Or(0x10000, h * 1024), l)
         == 0x10000 + h * 1024 + l - if h / 64 % 2 == 1 then 0x10000 else 0
  {
    OrPlaneBit(h);
    OrLowTen(if h / 64 % 2 == 1 then h else h + 64, l);
  }

  /** The `|` at line 276 computes the code point of RFC 2781 exactly when bit
      16 of the offset is clear. */
  lemma {:induction false} CombineIsExact(hi: nat, lo: nat)
    requires IsHigh(hi) && IsLow(lo)
    ensures CombineSurrogates(hi, lo) == PairScalar(hi, lo) <==> !PlaneBitSet(hi)
    ensures |Encode(CombineSurrogates(hi, lo))| == 4
    ensures Encode(CombineSurrogates(hi, lo)) == Utf8(PairScalar(hi, lo)) <==> !PlaneBitSet(hi)
  {
    CombineValue(hi, lo);
    EncodeIsUtf8(CombineSurrogates(hi, lo));
    Utf8Injective(CombineSurrogates(hi, lo), PairScalar(hi, lo));
  }

  /** The pair of U+20000 decodes to U+10000. */
  lemma {:induction false} PlaneTwoIsLost()
    ensures PairScalar(0xD840, 0xDC00) == 0x20000 && CombineSurrogates(0xD840, 0xDC00) == 0x10000
  {
    hide CombineSurrogates, Or, And;
    CombineValue(0xD840, 0xDC00);
  }

  lemma {:induction false} Utf8Injective(a: nat, b: nat)
    requires 0x10000 <= a < 0x110000 && 0x10000 <= b < 0x110000
    ensures Utf8(a) == Utf8(b) ==> a == b
  {
    var u, v := Utf8(a), Utf8(b);
    if u == v {
      assert u[0] == v[0] && u[1] == v[1] && u[2] == v[2] && u[3] == v[3];
      SixBitGroups(a);
      SixBitGroups(b);
    }
  }

  lemma {:induction false} SixBitGroups(a: nat)
    ensures a == a / 262144 * 262144 + a / 4096 % 64 * 4096 + a / 64 % 64 * 64 + a % 64
  {
    assert a / 64 / 64 == a / 4096;
    assert a / 4096 / 64 == a / 262144;
  }
}

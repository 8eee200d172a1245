/** The four integer widths of the `Add` and `Get` overloads, and the two
    renderings of a stored integer. */
module Widths {
  import opened Bytes
  import opened Numbers
  import opened Doubles
  import opened NumberText

  const TWO31: int := 0x8000_0000
  const TWO32: int := 0x1_0000_0000

  datatype Width = Int32 | Uint32 | Int64 | Uint64
  {
    predicate Holds(v: int) {
      match this
      case Int32 => -TWO31 <= v < TWO31
      case Uint32 => 0 <= v < TWO32
      case Int64 => -TWO63 <= v < TWO63
      case Uint64 => 0 <= v < TWO64
    }

    predicate Signed() { Int32? || Int64? }
  }

  /** A number converted to 64 unsigned bits. */
  function Cast64(v: int): uint64 { v % TWO64 }

  function AsInt32(n: uint64): int {
    var low := n % TWO32;
    if low >= TWO31 then low - TWO32 else low
  }

  function AsUint32(n: uint64): int { n % TWO32 }

  function AsInt64(n: uint64): int { if n >= TWO63 then n - TWO64 else n }

  /** The fields `cJSON_CreateInt` gets from `Add`: signed widths pass -1. */
  function Store(w: Width, v: int): IntFields {
    IntFields(if w.Signed() then -1 else 1, Cast64(v))
  }

  /** What `Get` makes of `valueint`. */
  function Load(w: Width, f: IntFields): int {
    match w
    case Int32 => AsInt32(f.valueint)
    case Uint32 => AsUint32(f.valueint)
    case Int64 => AsInt64(f.valueint)
    case Uint64 => f.valueint
  }

  /** The text `print_int` writes. Its test for a 32-bit value compares
      unsigned, against a lower bound above the upper one. */
  function PrintedText(f: IntFields): Text {
    if f.sign == -1 then
      if f.valueint <= TWO31 - 1 && f.valueint >= Cast64(-TWO31) then IntText(AsInt32(f.valueint))
      else IntText(AsInt64(f.valueint))
    else if f.valueint <= TWO32 - 1 then IntText(AsUint32(f.valueint))
    else IntText(f.valueint)
  }

  /** The text `operator()` returns; here the test compares signed. */
  function CalledText(f: IntFields): Text {
    if f.sign == -1 then
      if AsInt64(f.valueint) <= TWO31 - 1 && AsInt64(f.valueint) >= -TWO31 then IntText(AsInt32(f.valueint))
      else IntText(AsInt64(f.valueint))
    else if f.valueint <= TWO32 - 1 then IntText(AsUint32(f.valueint))
    else IntText(f.valueint)
  }

  /** `Get` gives a number of its width that differs from the 64 bits that are
      stored by a multiple of 2^32, or of 2^64: there is one such number only. */
  lemma {:induction false} LoadIsCast(w: Width, f: IntFields)
    ensures var v := Load(w, f);
      match w
      case Int32 => -0x8000_0000 <= v < 0x8000_0000 && (v - f.valueint) % 0x1_0000_0000 == 0
      case Uint32 => 0 <= v < 0x1_0000_0000 && (v - f.valueint) % 0x1_0000_0000 == 0
      case Int64 =>
        && -0x8000_0000_0000_0000 <= v < 0x8000_0000_0000_0000
        && (v - f.valueint) % 0x1_0000_0000_0000_0000 == 0
      case Uint64 => v == f.valueint && 0 <= v < 0x1_0000_0000_0000_0000
  {
    var n := f.valueint;
    assert n == n / TWO32 * TWO32 + n % TWO32;
    Multiple32(-(n / TWO32));
    Multiple32(-(n / TWO32) - 1);
  }

  lemma {:induction false} Multiple32(q: int)
    ensures q * 0x1_0000_0000 % 0x1_0000_0000 == 0
  {
  }

  /** `Add` stores the number modulo 2^64, and -1 for the signed widths. */
  lemma {:induction false} StoreIsCast(w: Width, v: int)
    ensures Store(w, v).sign == if w == Int32 || w == Int64 then -1 else 1
    ensures (Store(w, v).valueint - v) % 0x1_0000_0000_0000_0000 == 0
  {
    assert v == v / TWO64 * TWO64 + v % TWO64;
    Multiple64(-(v / TWO64));
  }

  lemma {:induction false} Multiple64(q: int)
    ensures q * 0x1_0000_0000_0000_0000 % 0x1_0000_0000_0000_0000 == 0
  {
  }

  lemma {:induction false} CastOfNegative(v: int)
    requires -TWO64 <= v < 0
    ensures Cast64(v) == v + TWO64
  {
  }

  lemma {:induction false} LowHalf(v: int)
    requires -TWO31 <= v < 0
    ensures (v + TWO64) % TWO32 == v + TWO32
  {
    assert v + TWO64 == (v + TWO32) + (TWO32 - 1) * TWO32;
  }

  /** A stored integer is the one it was created from, and reading it with the
      width it was added with gives it back. */
  lemma {:induction false} LoadOfStore(w: Width, v: int)
    requires w.Holds(v)
    ensures Load(w, Store(w, v)) == v
    ensures Numeric(Store(w, v)) == v
  {
    if v < 0 {
      CastOfNegative(v);
      if w == Int32 {
        LowHalf(v);
      }
    }
  }

  /** The low half of a 64-bit word holds a number that fits in it. */
  lemma {:induction false} NarrowSigned(n: uint64)
    requires -TWO31 <= AsInt64(n) < TWO31
    ensures AsInt32(n) == AsInt64(n)
  {
    if AsInt64(n) < 0 {
      LowHalf(AsInt64(n));
    }
  }

  /** Both renderings give the decimal text of the number the fields denote,
      whatever the fields are. */
  lemma {:induction false} SameText(f: IntFields)
    ensures PrintedText(f) == IntText(Numeric(f))
    ensures CalledText(f) == IntText(Numeric(f))
  {
    hide IntText, AsInt32;
    if f.sign == -1 {
      CastOfNegative(-TWO31);
      if -TWO31 <= AsInt64(f.valueint) < TWO31 {
        NarrowSigned(f.valueint);
      }
    }
  }

  /** Adding a number, printing it, parsing the text and getting with the same
      width gives it back exactly when it survives, as far as it is within
      reach; and at any magnitude only a number a double holds. */
  lemma {:induction false} AddPrintParseGet(w: Width, v: int, k: Text)
    requires w.Holds(v) && Stops(k)
    ensures var c := ScanNumber(PrintedText(Store(w, v)) + k);
      && c.IsInt() && c.rest == k
      && (-REACH <= v <= REACH ==> (Load(w, SignedFields(c.neg, c.Mantissa())) == v <==> Exact(v)))
      && (Load(w, SignedFields(c.neg, c.Mantissa())) == v ==> IsDouble(Abs(v)))
  {
    LoadOfStore(w, v);
    SameText(Store(w, v));
    ScanOfPrinted(v, k);
    LitScanOfPrinted(v, k);
    AccumulateIsDouble(Decimal(Abs(v)));
    hide PrintedText, Store, Load, ScanNumber, Exact, IsDouble;
    if -REACH <= v <= REACH {
      LoadOfReparsed(w, v);
    }
    if Load(w, SignedFields(v < 0, Accumulate(Decimal(Abs(v))))) == v {
      LoadIsDouble(w, v, Accumulate(Decimal(Abs(v))));
    }
  }

  lemma {:induction false} LoadIsDouble(w: Width, v: int, a: nat)
    requires w.Holds(v) && IsDouble(a) && Load(w, SignedFields(v < 0, a)) == v
    ensures IsDouble(Abs(v))
  {
    if Abs(v) < TWO53 {
      SurvivesIs(Abs(v));
    } else {
      hide IsDouble;
      StoredIsDouble(v, a);
    }
  }

  lemma {:induction false} LoadOfReparsed(w: Width, v: int)
    requires w.Holds(v) && -REACH <= v <= REACH
    ensures Load(w, SignedFields(v < 0, Accumulate(Decimal(Abs(v))))) == v <==> Exact(v)
  {
    var n := Accumulate(Decimal(Abs(v)));
    AccumulateBounded(Decimal(Abs(v)));
    AccumulateIsExact(Decimal(Abs(v)));
    if n == Abs(v) {
      ReparsedExact(w, v);
    } else {
      NotNarrow(w, v);
      hide Survives;
      ReparsedOther(w, v, n);
    }
  }

  lemma {:induction false} ReparsedExact(w: Width, v: int)
    requires w.Holds(v) && -REACH <= v <= REACH
    ensures Load(w, SignedFields(v < 0, Abs(v))) == v
  {
    if v < 0 {
      CastOfNegative(v);
      if w == Int32 {
        LowHalf(v);
      }
    }
  }

  /** A number that a double does not hold is beyond 2^53. */
  lemma {:induction false} NotNarrow(w: Width, v: int)
    requires w.Holds(v) && Abs(v) <= REACH && !Survives(Abs(v))
    ensures w == Int64 || w == Uint64
  {
    SurvivesIs(Abs(v));
    hide Survives;
  }

  lemma {:induction false} ReparsedOther(w: Width, v: int, n: nat)
    requires w.Holds(v) && (w == Int64 || w == Uint64) && n != Abs(v)
    requires n < TWO57 && -REACH <= v <= REACH
    ensures Load(w, SignedFields(v < 0, n)) != v
  {
    if v < 0 && n > 0 {
      CastOfNegative(-(n as int));
    }
  }
}

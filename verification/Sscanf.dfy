/** What `sscanf` makes of `%4x`, as the C standard describes its input item:
    white space, a sign, a prefix and digits, the last three at most four
    bytes and as many as there are. */
module Sscanf {
  import opened Bytes
  import opened Strings

  /** Space, form feed, line feed, carriage return and the two tabs. */
  predicate IsWhite(ws: Text) {
    forall i :: 0 <= i < |ws| ==> ws[i] in {0x20, 0x0C, 0x0A, 0x0D, 0x09, 0x0B}
  }

  predicate IsHexChar(b: byte) { Place(b, LOWER_HEX) < 16 || Place(b, UPPER_HEX) < 16 }

  predicate AllHex(ds: Text) {
    forall i :: 0 <= i < |ds| ==> IsHexChar(ds[i])
  }

  /** The digits behind a number, the last one worth its place in the table. */
  function Appended(n: nat, ds: Text): nat
    requires AllHex(ds)
  {
    if ds == [] then n
    else
      HexDigitIs(ds[|ds| - 1]);
      16 * Appended(n, ds[..|ds| - 1]) + StandardHex(ds[|ds| - 1])
  }

  /** An input item and what follows it: the item is as long as it can be, so
      either it has four bytes or no digit follows, and a zero alone is not
      followed by the rest of a prefix. */
  predicate IsItem(sign: Text, prefix: Text, ds: Text, k: Text) {
    && (sign == [] || sign == Ascii("+") || sign == Ascii("-"))
    && (prefix == [] || prefix == Ascii("0x") || prefix == Ascii("0X"))
    && ds != [] && AllHex(ds) && |sign| + |prefix| + |ds| <= 4
    && (|sign| + |prefix| + |ds| == 4 || k == [] || !IsHexChar(k[0]))
    && (prefix == [] && ds == Ascii("0") ==> Peek(k) != 'x' as int && Peek(k) != 'X' as int)
  }

  lemma {:induction false} HexCharIs(b: byte)
    ensures IsHexChar(b) <==> IsHex(b)
  {
    HexDigitIs(b);
  }

  lemma {:induction false} AppendedFront(n: nat, d: byte, ds: Text)
    requires AllHex([d] + ds)
    ensures AllHex(ds) && IsHex(d) && Appended(n, [d] + ds) == Appended(16 * n + StandardHex(d), ds)
  {
    hide IsHexChar, StandardHex, Place;
    assert ([d] + ds)[0] == d;
    HexCharIs(d);
    assert forall i :: 0 <= i < |ds| ==> ds[i] == ([d] + ds)[i + 1];
    if ds == [] {
      assert [d] + ds == [d] && [d][..0] == [];
      assert Appended(n, [d][..0]) == n;
    } else {
      var p := ds[..|ds| - 1];
      assert ([d] + ds)[..|ds|] == [d] + p;
      AppendedFront(n, d, p);
    }
  }

  lemma {:induction false} AppendedNone(n: nat)
    ensures Appended(n, []) == n
  {
  }

  lemma {:induction false} RunOfDigits(ds: Text, k: Text, width: nat, acc: nat)
    requires AllHex(ds) && |ds| <= width && (|ds| == width || !IsHex(Peek(k)))
    ensures HexRun(ds + k, width, acc) == Appended(acc, ds)
  {
    hide HexRun, Appended, StandardHex, IsHexChar, IsHex, HexValue;
    if ds == [] {
      assert ds + k == k;
      AppendedNone(acc);
      RunStops(k, width, acc);
    } else {
      var d, t := ds[0], ds[1..];
      assert ds == [d] + t;
      AppendedFront(acc, d, t);
      assert (ds + k)[0] == d && (ds + k)[1..] == t + k;
      RunOfDigits(t, k, width - 1, 16 * acc + StandardHex(d));
      RunNext(ds + k, width, acc);
    }
  }

  lemma {:induction false} RunStops(s: Text, width: nat, acc: nat)
    requires width == 0 || !IsHex(Peek(s))
    ensures HexRun(s, width, acc) == acc
  {
  }

  lemma {:induction false} RunNext(s: Text, width: nat, acc: nat)
    requires width > 0 && IsHex(Peek(s))
    ensures HexRun(s, width, acc) == HexRun(s[1..], width - 1, 16 * acc + HexValue(s[0]))
  {
  }

  /** Behind the sign: prefix and digits, in a width of three or four bytes. */
  lemma {:induction false} ReadItem(prefix: Text, ds: Text, k: Text, width: nat)
    requires (prefix == [] || prefix == Ascii("0x") || prefix == Ascii("0X")) && ds != [] && AllHex(ds)
    requires 3 <= width <= 4 && |prefix| + |ds| <= width
    requires |prefix| + |ds| == width || k == [] || !IsHexChar(k[0])
    requires prefix == [] && ds == Ascii("0") ==> Peek(k) != 'x' as int && Peek(k) != 'X' as int
    ensures ReadHex(prefix + ds + k, width) == Set(Appended(0, ds))
    ensures IsHex(Peek(prefix + ds + k))
  {
    hide HexRun, Appended, IsHexChar, Place;
    var s := prefix + ds + k;
    HexCharIs(ds[0]);
    HexCharIs(Peek(k));
    if prefix == [] {
      assert s == ds + k;
      RunOfDigits(ds, k, width, 0);
      NoPrefix(ds, k);
    } else {
      assert s[2..] == ds + k && s[0] == prefix[0] == 48 && s[1] == prefix[1];
      RunOfDigits(ds, k, width - 2, 0);
      assert s[2..][0] == ds[0];
    }
  }

  lemma {:induction false} NoPrefix(ds: Text, k: Text)
    requires ds != [] && AllHex(ds)
    requires ds == Ascii("0") ==> Peek(k) != 'x' as int && Peek(k) != 'X' as int
    ensures !HasPrefix(ds + k) && IsHex(Peek(ds + k))
  {
    HexCharIs(ds[0]);
    if |ds| > 1 {
      HexCharIs(ds[1]);
    } else {
      assert ds == [ds[0]];
      assert k != [] ==> (ds + k)[1] == k[0];
    }
  }

  lemma {:induction false} SkipWhite(ws: Text, t: Text)
    requires IsWhite(ws) && !IsSpace(Peek(t))
    ensures SkipSpace(ws + t) == t
  {
    if ws == [] {
      assert ws + t == t;
    } else {
      assert (ws + t)[1..] == ws[1..] + t;
      SkipWhite(ws[1..], t);
    }
  }

  /** An input item is converted to the number its digits make, and that number
      is negated modulo 2^32 behind a minus. */
  lemma {:induction false} ItemIsRead(ws: Text, sign: Text, prefix: Text, ds: Text, k: Text)
    requires IsWhite(ws) && IsItem(sign, prefix, ds, k)
    ensures var n := Appended(0, ds);
      ScanHex(ws + (sign + (prefix + ds + k)))
        == Set(if sign == Ascii("-") && n != 0 then 0x1_0000_0000 - n % 0x1_0000_0000 else n)
  {
    var t := prefix + ds + k;
    hide ReadHex, Appended, IsHexChar, AllHex;
    ReadItem(prefix, ds, k, if sign == [] then 4 else 3);
    if sign == [] {
      assert sign + t == t;
    } else {
      assert (sign + t)[0] == sign[0] && (sign + t)[1..] == t;
    }
    SkipWhite(ws, sign + t);
  }

  // ----------------------------------------------- only items are converted

  /** As many digits as there are, up to a width. */
  lemma {:induction false} DigitsAhead(s: Text, width: nat) returns (ds: Text)
    ensures AllHex(ds) && |ds| <= width && |ds| <= |s| && s == ds + s[|ds|..]
    ensures |ds| == width || |ds| == |s| || !IsHexChar(s[|ds|])
    ensures width > 0 && IsHex(Peek(s)) ==> ds != []
    decreases width
  {
    hide Place;
    if width == 0 || s == [] || !IsHex(s[0]) {
      ds := [];
      if s != [] {
        HexCharIs(s[0]);
      }
    } else {
      hide IsHexChar;
      HexCharIs(s[0]);
      var t := DigitsAhead(s[1..], width - 1);
      ds := [s[0]] + t;
      assert s == [s[0]] + s[1..];
      assert s[|ds|..] == s[1..][|t|..];
    }
  }

  lemma {:induction false} WhiteAhead(s: Text) returns (ws: Text)
    ensures IsWhite(ws) && s == ws + SkipSpace(s)
  {
    if s != [] && IsSpace(s[0]) {
      var t := WhiteAhead(s[1..]);
      ws := [s[0]] + t;
      Assoc([s[0]], t, SkipSpace(s));
      assert s == [s[0]] + s[1..];
    } else {
      ws := [];
    }
  }

  lemma {:induction false} ItemAhead(s: Text, width: nat) returns (prefix: Text, ds: Text, k: Text)
    requires 3 <= width <= 4 && ReadHex(s, width).Set?
    ensures s == prefix + ds + k && (prefix == [] || prefix == Ascii("0x") || prefix == Ascii("0X"))
    ensures ds != [] && AllHex(ds) && |prefix| + |ds| <= width
    ensures |prefix| + |ds| == width || k == [] || !IsHexChar(k[0])
    ensures prefix == [] && ds == Ascii("0") ==> Peek(k) != 'x' as int && Peek(k) != 'X' as int
  {
    hide IsHexChar, AllHex, HexRun;
    if HasPrefix(s) {
      prefix := s[..2];
      assert s[2..][0] == s[2];
      ds := DigitsAhead(s[2..], width - 2);
      k := s[2..][|ds|..];
      assert s == prefix + (ds + k);
      assert prefix == Ascii("0x") || prefix == Ascii("0X");
    } else {
      prefix := [];
      ds := DigitsAhead(s, width);
      k := s[|ds|..];
      assert prefix + ds + k == ds + k;
      assert |ds| == 1 ==> s[0] == ds[0] && Peek(k) == At(s, 1);
    }
  }

  predicate IsSplit(s: Text, ws: Text, sign: Text, prefix: Text, ds: Text, k: Text) {
    IsWhite(ws) && IsItem(sign, prefix, ds, k) && s == ws + (sign + (prefix + ds + k))
  }

  lemma {:induction false} SplitAhead(s: Text) returns (ws: Text, sign: Text, prefix: Text, ds: Text, k: Text)
    requires ScanHex(s).Set?
    ensures IsSplit(s, ws, sign, prefix, ds, k)
  {
    hide IsWhite, IsHexChar, AllHex, ReadHex;
    ws := WhiteAhead(s);
    var t := SkipSpace(s);
    sign := if Peek(t) == PLUS || Peek(t) == MINUS then t[..1] else [];
    var body := t[|sign|..];
    prefix, ds, k := ItemAhead(body, if sign == [] then 4 else 3);
    assert t == sign + body;
    assert sign == [] || sign == Ascii("+") || sign == Ascii("-");
  }

  /** `sscanf` stores a number exactly when an input item is there. */
  lemma {:induction false} ScanHexIs(s: Text)
    ensures ScanHex(s).Set? <==> exists ws, sign, prefix, ds, k :: IsSplit(s, ws, sign, prefix, ds, k)
  {
    forall ws, sign, prefix, ds, k | IsSplit(s, ws, sign, prefix, ds, k) ensures ScanHex(s).Set? {
      ItemIsRead(ws, sign, prefix, ds, k);
    }
    hide IsSplit;
    if ScanHex(s).Set? {
      var ws, sign, prefix, ds, k := SplitAhead(s);
      assert IsSplit(s, ws, sign, prefix, ds, k);
    }
  }
}

/** String literals: what `parse_string` reads and `print_string_ptr` writes. */
module Strings {
  import opened Bytes
  import opened ParsedResult
  import opened Transcode

  predicate IsHex(b: byte) { 48 <= b <= 57 || 65 <= b <= 70 || 97 <= b <= 102 }

  function HexValue(b: byte): (v: nat)
    requires IsHex(b)
    ensures v < 16
  {
    if b <= 57 then b - 48 else if b <= 70 then b - 55 else b - 87
  }

  /** The n-th character of either table is a hexadecimal digit of value n. */
  lemma {:induction false} HexTables(n: nat)
    requires n < 16
    ensures var l: byte, u: byte := LOWER_HEX[n] as int, UPPER_HEX[n] as int;
      IsHex(l) && IsHex(u) && HexValue(l) == HexValue(u) == n
  {
  }

  /** The hexadecimal digits are the characters of the two tables, each worth
      its place, and no other byte is one. */
  lemma {:induction false} HexDigitIs(b: byte)
    ensures IsHex(b) <==> Place(b, LOWER_HEX) < 16 || Place(b, UPPER_HEX) < 16
    ensures IsHex(b) ==>
      HexValue(b) == if Place(b, LOWER_HEX) < 16 then Place(b, LOWER_HEX) else Place(b, UPPER_HEX)
  {
    hide Place;
    if 48 <= b <= 57 {
      assert LOWER_HEX[b - 48] as int == b;
    } else if 65 <= b <= 70 {
      assert UPPER_HEX[b - 55] as int == b;
    } else if 97 <= b <= 102 {
      assert LOWER_HEX[b - 87] as int == b;
    }
    if Place(b, LOWER_HEX) < 16 {
      HexTables(Place(b, LOWER_HEX));
    }
    if Place(b, UPPER_HEX) < 16 {
      HexTables(Place(b, UPPER_HEX));
    }
  }

  predicate IsHexQuad(s: Text) {
    |s| == 4 && IsHex(s[0]) && IsHex(s[1]) && IsHex(s[2]) && IsHex(s[3])
  }

  /** Four bytes that are read as a number and stepped over: hexadecimal digits
      at the front, or two behind the prefix `0x`, and no byte on which the two
      passes over the literal could part. */
  predicate IsQuad(s: Text) {
    && |s| == 4 && IsHex(s[0]) && (HasPrefix(s) ==> IsHex(s[2]))
    && (forall i :: 0 <= i < 4 ==> s[i] != 0 && s[i] != QUOTE && s[i] != BACKSLASH)
  }

  /** The number at the front of the four bytes. */
  function QuadValue(s: Text): (v: nat)
    requires IsQuad(s)
    ensures v < 0x10000
  {
    if HasPrefix(s) then
      if IsHex(s[3]) then HexValue(s[2]) * 16 + HexValue(s[3]) else HexValue(s[2])
    else if !IsHex(s[1]) then HexValue(s[0])
    else if !IsHex(s[2]) then HexValue(s[0]) * 16 + HexValue(s[1])
    else if !IsHex(s[3]) then HexValue(s[0]) * 256 + HexValue(s[1]) * 16 + HexValue(s[2])
    else HexValue(s[0]) * 4096 + HexValue(s[1]) * 256 + HexValue(s[2]) * 16 + HexValue(s[3])
  }

  /** One unit of a literal's body: a byte that stands for itself, a backslash
      and one character, or a `\u` with the four bytes behind it. */
  datatype Unit = Plain(b: byte) | Escaped(c: byte) | Utf16(quad: Text)
  {
    predicate Valid() {
      match this
      case Plain(b) => b != 0 && b != QUOTE && b != BACKSLASH
      case Escaped(c) => c != 0 && c != 117
      case Utf16(q) => IsQuad(q)
    }

    function Chars(): Text {
      match this
      case Plain(b) => [b]
      case Escaped(c) => [BACKSLASH, c]
      case Utf16(q) => [BACKSLASH, 117] + q
    }

    /** How much the counting pass adds for this unit. */
    function Count(): nat {
      if Utf16? then 5 else 1
    }
  }

  predicate AllValid(us: seq<Unit>) {
    forall i :: 0 <= i < |us| ==> us[i].Valid()
  }

  /** The text of a body, followed by `k`. */
  function BodyText(us: seq<Unit>, k: Text): Text {
    if us == [] then k else us[0].Chars() + BodyText(us[1..], k)
  }

  // ------------------------------------------------------------- reading

  /** The character a two-byte escape stands for. */
  function Unescape(c: byte): byte {
    if c == 98 then 8
    else if c == 102 then 12
    else if c == 110 then 10
    else if c == 114 then 13
    else if c == 116 then 9
    else c
  }

  /** Five letters stand for control characters, and every other character
      after a backslash for itself. */
  lemma {:induction false} UnescapeIs(c: byte)
    ensures Place(c, "bfnrt") == 5 ==> Unescape(c) == c
    ensures Place(c, "bfnrt") < 5 ==> Unescape(c) == [0x08, 0x0C, 0x0A, 0x0D, 0x09][Place(c, "bfnrt")]
  {
  }

  /** The bytes the decoding pass writes: an unpaired or zero code unit is
      dropped, and so are both halves when a high surrogate is followed by a
      `\u` that is not a low one. */
  function Decode(us: seq<Unit>): Text
    requires AllValid(us)
  {
    if us == [] then []
    else match us[0]
      case Plain(b) => [b] + Decode(us[1..])
      case Escaped(c) => [Unescape(c)] + Decode(us[1..])
      case Utf16(q) =>
        var uc := QuadValue(q);
        if IsLow(uc) || uc == 0 then Decode(us[1..])
        else if IsHigh(uc) then
          if |us| > 1 && us[1].Utf16? then
            var uc2 := QuadValue(us[1].quad);
            if IsLow(uc2) then Encode(CombineSurrogates(uc, uc2)) + Decode(us[2..])
            else Decode(us[2..])
          else Decode(us[1..])
        else Encode(uc) + Decode(us[1..])
  }

  /** The length the counting pass arrives at. */
  function Count(us: seq<Unit>): nat {
    if us == [] then 0 else us[0].Count() + Count(us[1..])
  }

  /** The decoder never writes more than was counted. */
  lemma {:induction false} DecodeFits(us: seq<Unit>)
    requires AllValid(us)
    ensures |Decode(us)| <= Count(us)
  {
    if us != [] {
      DecodeFits(us[1..]);
      if |us| > 1 && us[1].Utf16? {
        DecodeFits(us[2..]);
        assert us[1..][1..] == us[2..];
      }
    }
  }

  /** A decoded string never holds a NUL, so it is a C string. */
  lemma {:induction false} DecodeIsNulFree(us: seq<Unit>)
    requires AllValid(us)
    ensures NulFree(Decode(us))
  {
    if us != [] {
      DecodeIsNulFree(us[1..]);
      if us[0].Utf16? {
        var uc := QuadValue(us[0].quad);
        if IsHigh(uc) && |us| > 1 && us[1].Utf16? {
          DecodeIsNulFree(us[2..]);
          var uc2 := QuadValue(us[1].quad);
          if IsLow(uc2) {
            CombineValue(uc, uc2);
            EncodeIsUtf8(CombineSurrogates(uc, uc2));
          }
        } else if uc != 0 {
          EncodeIsUtf8(uc);
        }
      }
    }
  }

  /** How a literal's body is cut into units, up to its closing quote or the
      NUL. */
  datatype Lexed = Lexed(units: seq<Unit>, rest: Text) | BadEscape

  function LexBody(s: Text): (r: Lexed)
    ensures r.Lexed? ==> AllValid(r.units)
    ensures r.Lexed? ==> IsSuffix(r.rest, s) && (Peek(r.rest) == 0 || Peek(r.rest) == QUOTE)
    ensures r.Lexed? ==> s == BodyText(r.units, r.rest)
  {
    if Peek(s) == 0 || s[0] == QUOTE then
      Lexed([], s)
    else if s[0] != BACKSLASH then
      Prepend(Plain(s[0]), s, LexBody(s[1..]))
    else if Peek(s[1..]) == 0 then
      BadEscape
    else if s[1] != 117 then
      Prepend(Escaped(s[1]), s, LexBody(s[2..]))
    else if |s| >= 6 && IsQuad(s[2..6]) then
      assert s == Utf16(s[2..6]).Chars() + s[6..];
      Prepend(Utf16(s[2..6]), s, LexBody(s[6..]))
    else
      BadEscape
  }

  function Prepend(u: Unit, ghost s: Text, tail: Lexed): (r: Lexed)
    requires u.Valid()
    requires u.Chars() <= s
    requires tail.Lexed? ==> AllValid(tail.units)
    requires tail.Lexed? ==> IsSuffix(tail.rest, s[|u.Chars()|..])
    requires tail.Lexed? ==> s[|u.Chars()|..] == BodyText(tail.units, tail.rest)
    ensures r.Lexed? == tail.Lexed?
    ensures r.Lexed? ==> r.units == [u] + tail.units && r.rest == tail.rest
    ensures r.Lexed? ==> AllValid(r.units) && IsSuffix(r.rest, s)
    ensures r.Lexed? ==> s == BodyText(r.units, r.rest)
  {
    if tail.BadEscape? then BadEscape
    else
      var us := [u] + tail.units;
      assert us[1..] == tail.units;
      SuffixTrans(tail.rest, s[|u.Chars()|..], s);
      Lexed(us, tail.rest)
  }

  lemma {:induction false} LexPlain(b: byte, tl: Text)
    requires Plain(b).Valid() && LexBody(tl).Lexed?
    ensures LexBody([b] + tl) == Prepend(Plain(b), [b] + tl, LexBody(tl))
  {
    assert ([b] + tl)[1..] == tl;
  }

  lemma {:induction false} LexEscaped(c: byte, tl: Text)
    requires Escaped(c).Valid() && LexBody(tl).Lexed?
    ensures LexBody([BACKSLASH, c] + tl) == Prepend(Escaped(c), [BACKSLASH, c] + tl, LexBody(tl))
  {
    var s := [BACKSLASH, c] + tl;
    assert s[2..] == tl && s[1..][0] == c;
  }

  lemma {:induction false} LexUtf16(q: Text, tl: Text)
    requires IsQuad(q) && LexBody(tl).Lexed?
    ensures LexBody([BACKSLASH, 117] + q + tl) == Prepend(Utf16(q), [BACKSLASH, 117] + q + tl, LexBody(tl))
  {
    assert |q| == 4;
    hide IsQuad;
    var s := [BACKSLASH, 117] + q + tl;
    assert s[6..] == tl && s[2..6] == q && s[1..][0] == 117;
  }

  /** The first unit is cut off whole, whatever follows it. */
  lemma {:induction false} LexUnit(u: Unit, tl: Text)
    requires u.Valid() && LexBody(tl).Lexed?
    ensures LexBody(u.Chars() + tl) == Lexed([u] + LexBody(tl).units, LexBody(tl).rest)
  {
    hide LexBody, IsQuad;
    match u
    case Plain(b) => LexPlain(b, tl);
    case Escaped(c) => LexEscaped(c, tl);
    case Utf16(q) => LexUtf16(q, tl);
  }

  /** Cutting the text of a body gives its units back. */
  lemma {:induction false} LexOfBody(us: seq<Unit>, k: Text)
    requires AllValid(us)
    requires Peek(k) == 0 || Peek(k) == QUOTE
    ensures LexBody(BodyText(us, k)) == Lexed(us, k)
  {
    if us != [] {
      LexOfBody(us[1..], k);
      LexUnit(us[0], BodyText(us[1..], k));
      assert us == [us[0]] + us[1..];
    }
  }

  // ------------------------------------------------- the code on any text

  /** The byte after a backslash is taken with it: where the counting pass
      stops and what it has counted, or that it runs over the NUL. */
  datatype RawScan = Stop(len: nat, rest: Text) | Off

  function Raw(s: Text): RawScan {
    if Peek(s) == 0 || s[0] == QUOTE then Stop(0, s)
    else if s[0] == BACKSLASH then
      if Peek(s[1..]) == 0 then Off else AddOne(Raw(s[2..]))
    else AddOne(Raw(s[1..]))
  }

  function AddOne(r: RawScan): RawScan {
    if r.Off? then Off else Stop(r.len + 1, r.rest)
  }

  /** An unsigned variable of the C code, which nothing may have been stored in
      yet. */
  datatype Unsigned = Unset | Set(v: nat)

  /** The bytes `sscanf` skips in front of a number. */
  predicate IsSpace(b: byte) { b == 32 || 9 <= b <= 13 }

  function SkipSpace(s: Text): Text {
    if s != [] && IsSpace(s[0]) then SkipSpace(s[1..]) else s
  }

  /** At most `width` hexadecimal digits, behind those that make `acc`. */
  function HexRun(s: Text, width: nat, acc: nat): nat
    decreases width
  {
    if width == 0 || !IsHex(Peek(s)) then acc else HexRun(s[1..], width - 1, acc * 16 + HexValue(s[0]))
  }

  predicate HasPrefix(s: Text) {
    Peek(s) == 48 && (At(s, 1) == 120 || At(s, 1) == 88)
  }

  /** What `%x` with a width converts behind the sign; `0x` in front of no digit
      is no number. */
  function ReadHex(s: Text, width: nat): Unsigned
    requires width >= 3
  {
    if HasPrefix(s) then
      if IsHex(At(s, 2)) then Set(HexRun(s[2..], width - 2, 0)) else Unset
    else if IsHex(Peek(s)) then Set(HexRun(s, width, 0))
    else Unset
  }

  /** What `sscanf` with `%4x` stores in a 32-bit variable, if anything. */
  function ScanHex(s: Text): Unsigned {
    var t := SkipSpace(s);
    if Peek(t) == PLUS then ReadHex(t[1..], 3)
    else if Peek(t) == MINUS then
      var r := ReadHex(t[1..], 3);
      if r.Unset? || r.v == 0 then r else Set(0x1_0000_0000 - r.v % 0x1_0000_0000)
    else ReadHex(t, 4)
  }

  /** A conversion that finds no number leaves the variable as it was. */
  function Assigned(old_: Unsigned, s: Text): Unsigned {
    if ScanHex(s).Set? then ScanHex(s) else old_
  }

  /** A code shifted right by six bits, `j` times. */
  function Down(uc: nat, j: nat): nat {
    if j == 0 then uc else Down(uc / 64, j - 1)
  }

  /** What the switch leaves of the code it has written: it shifts once for
      every byte but the first. */
  function Shifted(uc: nat): nat { Down(uc, EncodedLength(uc) - 1) }

  /** What is left in the variable is the code without its last 0, 6, 12 or 18
      bits. */
  lemma {:induction false} ShiftedIs(uc: nat)
    ensures Shifted(uc)
         == if uc < 0x80 then uc else if uc < 0x800 then uc / 64 else if uc < 0x10000 then uc / 64 / 64
            else uc / 64 / 64 / 64
  {
    assert Down(uc, 0) == uc && Down(uc, 1) == uc / 64;
    assert Down(uc, 2) == Down(uc / 64, 1) == uc / 64 / 64;
    assert Down(uc, 3) == Down(uc / 64, 2) == Down(uc / 64 / 64, 1);
  }

  /** The four bytes behind a `\u` are in front of the NUL. */
  predicate HasFour(s: Text) {
    |s| >= 4 && s[0] != 0 && s[1] != 0 && s[2] != 0 && s[3] != 0
  }

  datatype Decoded = Written(text: Text, rest: Text) | Undefined

  function Behind(piece: Text, d: Decoded): Decoded {
    if d.Undefined? then Undefined else Written(piece + d.text, d.rest)
  }

  /** What one turn of the decoding loop writes, how far it steps, and the two
      variables after it. */
  datatype Turn = Turn(piece: Text, size: nat, uc: Unsigned, uc2: Unsigned) | BadTurn

  /** The branch of `\u`; `s` starts at its backslash. A number is needed, and
      the four bytes that are stepped over. */
  function CodeTurn(s: Text, uc: Unsigned, uc2: Unsigned): (t: Turn)
    requires |s| >= 2
    ensures t.Turn? ==> 6 <= t.size <= |s|
  {
    var n := Assigned(uc, s[2..]);
    if n.Unset? || !HasFour(s[2..]) then BadTurn
    else if IsLow(n.v) || n.v == 0 then Turn([], 6, n, uc2)
    else if !IsHigh(n.v) then Turn(Encode(n.v), 6, Set(Shifted(n.v)), uc2)
    else if At(s, 6) != BACKSLASH || At(s, 7) != 117 then Turn([], 6, n, uc2)
    else
      var m := Assigned(uc2, s[8..]);
      if m.Unset? || !HasFour(s[8..]) then BadTurn
      else if !IsLow(m.v) then Turn([], 12, n, m)
      else
        var code := CombineSurrogates(n.v, m.v);
        Turn(Encode(code), 12, Set(Shifted(code)), m)
  }

  /** What the two variables hold after the branch: `uc` the number read, or
      the one it held, unless bytes were written, which leaves only the code's
      first bits; `uc2` the number read, if a second one was asked for. */
  lemma {:induction false} CodeTurnLeaves(s: Text, uc: Unsigned, uc2: Unsigned)
    requires |s| >= 2 && CodeTurn(s, uc, uc2).Turn?
    ensures var t := CodeTurn(s, uc, uc2);
      var n := if ScanHex(s[2..]).Unset? then uc else ScanHex(s[2..]);
      && n.Set? && (t.size == 6 || t.size == 12)
      && (t.piece == [] ==> t.uc == n)
      && (t.piece != [] && t.size == 6 ==>
            t.uc == Set(if n.v < 0x80 then n.v else if n.v < 0x800 then n.v / 64
                        else if n.v < 0x10000 then n.v / 64 / 64 else n.v / 64 / 64 / 64))
      && (t.size == 6 ==> t.uc2 == uc2)
      && (t.size == 12 ==> t.uc2 == if ScanHex(s[8..]).Unset? then uc2 else ScanHex(s[8..]))
      && (t.piece != [] && t.size == 12 ==>
            t.uc2.Set? && t.uc == Set(CombineSurrogates(n.v, t.uc2.v) / 64 / 64 / 64))
  {
    hide ScanHex, Encode, Shifted, CombineSurrogates;
    var n := Assigned(uc, s[2..]);
    ShiftedIs(n.v);
    if IsHigh(n.v) && At(s, 6) == BACKSLASH && At(s, 7) == 117 {
      var m := Assigned(uc2, s[8..]);
      if IsLow(m.v) {
        CombineValue(n.v, m.v);
        ShiftedIs(CombineSurrogates(n.v, m.v));
      }
    }
  }

  function LoopTurn(s: Text, uc: Unsigned, uc2: Unsigned): (t: Turn)
    requires Peek(s) != 0 && s[0] != QUOTE
    ensures t.Turn? ==> 1 <= t.size <= |s|
  {
    if s[0] != BACKSLASH then Turn([s[0]], 1, uc, uc2)
    else if Peek(s[1..]) == 0 then BadTurn
    else if s[1] == 117 then CodeTurn(s, uc, uc2)
    else Turn([Unescape(s[1])], 2, uc, uc2)
  }

  /** What the decoding loop writes and where it stops; undefined when it needs
      a number that was never read or runs over the NUL. */
  function Loop(s: Text, uc: Unsigned, uc2: Unsigned): (d: Decoded)
    ensures d.Written? ==> IsSuffix(d.rest, s) && (Peek(d.rest) == 0 || Peek(d.rest) == QUOTE)
    decreases |s|
  {
    if Peek(s) == 0 || s[0] == QUOTE then Written([], s)
    else
      var t := LoopTurn(s, uc, uc2);
      if t.BadTurn? then Undefined
      else
        var d := Loop(s[t.size..], t.uc, t.uc2);
        if d.Written? then
          SuffixTrans(d.rest, s[t.size..], s);
          Written(t.piece + d.text, d.rest)
        else Undefined
  }

  /** `parse_string`: an unterminated literal ends at the NUL and is accepted.
      The outcome is `Malformed` exactly when the C code has none: a pass runs
      over the NUL, a number that was never read is used, or more is written
      than was counted. */
  function ParseString(s: Text): (r: Parsed<Text>)
    ensures r.Ok? ==> IsSuffix(r.rest, s) && |r.rest| < |s| && NulFree(r.value)
  {
    if Peek(s) != QUOTE then Fail
    else
      var c, d := Raw(s[1..]), Loop(s[1..], Unset, Unset);
      if c.Off? || d.Undefined? || |d.text| > c.len then Malformed
      else
        SuffixTrans(d.rest, s[1..], s);
        LoopIsNulFree(s[1..], Unset, Unset);
        Ok(d.text, if Peek(d.rest) == QUOTE then d.rest[1..] else d.rest)
  }

  lemma {:induction false} TurnIsNulFree(s: Text, uc: Unsigned, uc2: Unsigned)
    requires Peek(s) != 0 && s[0] != QUOTE && LoopTurn(s, uc, uc2).Turn?
    ensures NulFree(LoopTurn(s, uc, uc2).piece)
  {
    hide Encode, Assigned, CombineSurrogates;
    if s[0] == BACKSLASH && s[1] == 117 {
      var n := Assigned(uc, s[2..]);
      if IsHigh(n.v) {
        if At(s, 6) == BACKSLASH && At(s, 7) == 117 {
          var m := Assigned(uc2, s[8..]);
          if IsLow(m.v) {
            CombineValue(n.v, m.v);
            EncodeIsNulFree(CombineSurrogates(n.v, m.v));
          }
        }
      } else if n.v != 0 {
        EncodeIsNulFree(n.v);
      }
    }
  }

  lemma {:induction false} LoopIsNulFree(s: Text, uc: Unsigned, uc2: Unsigned)
    requires Loop(s, uc, uc2).Written?
    ensures NulFree(Loop(s, uc, uc2).text)
    decreases |s|
  {
    hide LoopTurn;
    if Peek(s) != 0 && s[0] != QUOTE {
      var t := LoopTurn(s, uc, uc2);
      TurnIsNulFree(s, uc, uc2);
      LoopIsNulFree(s[t.size..], t.uc, t.uc2);
    }
  }

  // ------------------------------------------- the code on well-formed units

  lemma {:induction false} RawPlain(b: byte, s: Text)
    requires b != 0 && b != QUOTE && b != BACKSLASH
    ensures Raw([b] + s) == AddOne(Raw(s))
  {
    assert ([b] + s)[1..] == s;
  }

  lemma {:induction false} RawHex(q: Text, s: Text)
    requires IsQuad(q) && Raw(s).Stop?
    ensures Raw(q + s) == Stop(Raw(s).len + 4, Raw(s).rest)
  {
    hide Raw;
    RawPlain(q[3], s);
    RawPlain(q[2], [q[3]] + s);
    RawPlain(q[1], [q[2]] + ([q[3]] + s));
    RawPlain(q[0], [q[1]] + ([q[2]] + ([q[3]] + s)));
    assert q + s == [q[0]] + ([q[1]] + ([q[2]] + ([q[3]] + s)));
  }

  /** On well-formed escapes both passes stop at the same quote, and the
      counting pass has counted every unit. */
  lemma {:induction false} RawOfBody(us: seq<Unit>, k: Text)
    requires AllValid(us) && (Peek(k) == 0 || Peek(k) == QUOTE)
    ensures Raw(BodyText(us, k)) == Stop(Count(us), k)
  {
    if us != [] {
      var tl := BodyText(us[1..], k);
      RawOfBody(us[1..], k);
      RawUnit(us[0], tl);
    }
  }

  lemma {:induction false} RawUnit(u: Unit, tl: Text)
    requires u.Valid() && Raw(tl).Stop?
    ensures Raw(u.Chars() + tl) == Stop(Raw(tl).len + u.Count(), Raw(tl).rest)
  {
    match u
    case Plain(b) => RawPlain(b, tl);
    case Escaped(c) =>
      assert (u.Chars() + tl)[2..] == tl;
      assert (u.Chars() + tl)[1..][0] == c;
    case Utf16(q) =>
      RawHex(q, tl);
      assert u.Chars() + tl == [BACKSLASH, 117] + (q + tl);
      assert ([BACKSLASH, 117] + (q + tl))[2..] == q + tl;
      assert ([BACKSLASH, 117] + (q + tl))[1..][0] == 117;
  }

  /** Digits right behind a `\u` are read, whatever follows the four bytes. */
  lemma {:induction false} ScanQuad(q: Text, k: Text)
    requires IsQuad(q)
    ensures ScanHex(q + k) == Set(QuadValue(q))
  {
    var s := q + k;
    assert s[0] == q[0] && s[1] == q[1] && s[2] == q[2] && s[3] == q[3];
    assert s[1..][0] == q[1] && s[2..][0] == q[2];
    assert s[1..][1..][0] == q[2] && s[2..][1..][0] == q[3];
    assert s[1..][1..][1..][0] == q[3];
    assert SkipSpace(s) == s;
  }

  /** What one turn of the decoding loop writes, and how many units it takes. */
  function Piece(us: seq<Unit>): (r: (Text, nat))
    requires us != [] && AllValid(us)
    ensures 1 <= r.1 <= |us|
  {
    match us[0]
    case Plain(b) => ([b], 1)
    case Escaped(c) => ([Unescape(c)], 1)
    case Utf16(q) =>
      var uc := QuadValue(q);
      if IsLow(uc) || uc == 0 then ([], 1)
      else if IsHigh(uc) then
        if |us| > 1 && us[1].Utf16? then
          var uc2 := QuadValue(us[1].quad);
          (if IsLow(uc2) then Encode(CombineSurrogates(uc, uc2)) else [], 2)
        else ([], 1)
      else (Encode(uc), 1)
  }

  lemma {:induction false} DecodePiece(us: seq<Unit>)
    requires us != [] && AllValid(us)
    ensures Decode(us) == Piece(us).0 + Decode(us[Piece(us).1..])
    ensures |Piece(us).0| + Count(us[Piece(us).1..]) <= Count(us)
  {
    CountPiece(us);
  }

  lemma {:induction false} CountPiece(us: seq<Unit>)
    requires us != [] && AllValid(us)
    ensures |Piece(us).0| + Count(us[Piece(us).1..]) <= Count(us)
  {
    if Piece(us).1 == 2 {
      assert us[1..][1..] == us[2..];
      assert Count(us[1..]) == us[1].Count() + Count(us[2..]);
    }
  }

  /** The text of an escaped code: what is read behind its `\u`, and what comes
      after the four bytes. */
  lemma {:induction false} QuadAhead(q: Text, tl: Text, old_: Unsigned)
    requires IsQuad(q)
    ensures var s := [BACKSLASH, 117] + q + tl;
      && Assigned(old_, s[2..]) == Set(QuadValue(q)) && HasFour(s[2..])
      && s[6..] == tl && At(s, 6) == Peek(tl) && At(s, 7) == At(tl, 1)
      && (|tl| >= 2 ==> s[8..] == tl[2..]) && (|tl| >= 6 ==> s[12..] == tl[6..])
  {
    var s := [BACKSLASH, 117] + q + tl;
    ScanQuad(q, tl);
    assert s[2..] == q + tl && s[6..] == tl;
    assert s[2..][0] == q[0] && s[2..][1] == q[1] && s[2..][2] == q[2] && s[2..][3] == q[3];
    hide ScanHex, QuadValue;
    assert tl != [] ==> s[6] == s[6..][0];
    assert |tl| >= 2 ==> s[7] == s[6..][1] && s[8..] == s[6..][2..];
    assert |tl| >= 6 ==> s[12..] == s[6..][6..];
  }

  /** No `\u` comes next when the next unit is none. */
  lemma {:induction false} NoCodeAhead(us: seq<Unit>, k: Text)
    requires AllValid(us) && (us == [] || !us[0].Utf16?) && (Peek(k) == 0 || Peek(k) == QUOTE)
    ensures var tl := BodyText(us, k); Peek(tl) != BACKSLASH || At(tl, 1) != 117
  {
  }

  lemma {:induction false} CodeAlone(q: Text, tl: Text, uc: Unsigned, uc2: Unsigned)
    requires IsQuad(q) && (IsHigh(QuadValue(q)) ==> Peek(tl) != BACKSLASH || At(tl, 1) != 117)
    ensures var s := [BACKSLASH, 117] + q + tl; var t := CodeTurn(s, uc, uc2); var v := QuadValue(q);
      && t.Turn? && t.size == 6 && s[6..] == tl
      && t.piece == if IsLow(v) || v == 0 || IsHigh(v) then [] else Encode(v)
  {
    hide IsQuad, QuadValue, Assigned, HasFour, Encode;
    QuadAhead(q, tl, uc);
  }

  lemma {:induction false} CodePair(q: Text, q2: Text, tl: Text, uc: Unsigned, uc2: Unsigned)
    requires IsQuad(q) && IsQuad(q2) && IsHigh(QuadValue(q))
    ensures var s := [BACKSLASH, 117] + q + ([BACKSLASH, 117] + q2 + tl); var t := CodeTurn(s, uc, uc2);
      && t.Turn? && t.size == 12 && s[12..] == tl
      && t.piece == if IsLow(QuadValue(q2)) then Encode(CombineSurrogates(QuadValue(q), QuadValue(q2))) else []
  {
    hide QuadValue, Assigned, HasFour, Encode, CombineSurrogates;
    var tl1 := [BACKSLASH, 117] + q2 + tl;
    QuadAhead(q, tl1, uc);
    QuadAhead(q2, tl, uc2);
    assert |q2| == 4;
    hide IsQuad;
    assert tl1[2..] == q2 + tl && tl1[6..] == tl;
  }

  lemma {:induction false} CodeTurnOfUnit(us: seq<Unit>, k: Text, uc: Unsigned, uc2: Unsigned)
    requires AllValid(us) && us != [] && us[0].Utf16? && (Peek(k) == 0 || Peek(k) == QUOTE)
    ensures var s := BodyText(us, k); var t := CodeTurn(s, uc, uc2); var n := Piece(us).1;
      t.Turn? && t.piece == Piece(us).0 && s[t.size..] == BodyText(us[n..], k)
  {
    var tl := BodyText(us[1..], k);
    hide IsQuad, QuadValue, CodeTurn, Encode, CombineSurrogates;
    if |us| > 1 && us[1].Utf16? && IsHigh(QuadValue(us[0].quad)) {
      var tl2 := BodyText(us[2..], k);
      assert us[1..][0] == us[1] && us[1..][1..] == us[2..];
      assert tl == [BACKSLASH, 117] + us[1].quad + tl2;
      CodePair(us[0].quad, us[1].quad, tl2, uc, uc2);
    } else {
      if |us| == 1 || !us[1].Utf16? {
        NoCodeAhead(us[1..], k);
      }
      CodeAlone(us[0].quad, tl, uc, uc2);
    }
  }

  /** One turn of the loop on one unit, or on a surrogate and the `\u` after
      it. */
  lemma {:induction false} TurnOfUnit(us: seq<Unit>, k: Text, uc: Unsigned, uc2: Unsigned)
    requires AllValid(us) && us != [] && (Peek(k) == 0 || Peek(k) == QUOTE)
    ensures var s := BodyText(us, k); var t := LoopTurn(s, uc, uc2); var n := Piece(us).1;
      && Peek(s) != 0 && s[0] != QUOTE
      && t.Turn? && t.piece == Piece(us).0 && s[t.size..] == BodyText(us[n..], k)
  {
    hide CodeTurn, QuadValue, Encode, IsQuad;
    var s, tl := BodyText(us, k), BodyText(us[1..], k);
    match us[0]
    case Plain(b) =>
      assert s[1..] == tl;
    case Escaped(c) =>
      assert s[1..][0] == c && s[2..] == tl;
    case Utf16(q) =>
      assert s[1..][0] == 117;
      CodeTurnOfUnit(us, k, uc, uc2);
  }

  /** On units the loop writes what they decode to, and stops behind them. */
  lemma {:induction false} LoopOfBody(us: seq<Unit>, k: Text, uc: Unsigned, uc2: Unsigned)
    requires AllValid(us) && (Peek(k) == 0 || Peek(k) == QUOTE)
    ensures Loop(BodyText(us, k), uc, uc2) == Written(Decode(us), k)
    decreases |us|
  {
    hide LoopTurn, Piece;
    if us != [] {
      var t := LoopTurn(BodyText(us, k), uc, uc2);
      TurnOfUnit(us, k, uc, uc2);
      DecodePiece(us);
      LoopOfBody(us[Piece(us).1..], k, t.uc, t.uc2);
    }
  }

  // ------------------------------------------------------------- printing

  function HexDigit(n: nat): byte
    requires n < 16
  {
    if n < 10 then 48 + n else 87 + n
  }

  /** The bytes `print_string_ptr` writes for one byte of the string. */
  function EscapeByte(b: byte): Text {
    if b > 31 && b != QUOTE && b != BACKSLASH then [b]
    else if b == BACKSLASH then [BACKSLASH, BACKSLASH]
    else if b == QUOTE then [BACKSLASH, QUOTE]
    else if b == 8 then [BACKSLASH, 98]
    else if b == 12 then [BACKSLASH, 102]
    else if b == 10 then [BACKSLASH, 110]
    else if b == 13 then [BACKSLASH, 114]
    else if b == 9 then [BACKSLASH, 116]
    else [BACKSLASH, 117, 48, 48, HexDigit(b / 16), HexDigit(b % 16)]
  }

  const ESCAPED: string := "\"\\\U{8}\U{C}\n\r\t"
  const ESCAPES: string := "\"\\bfnrt"

  lemma {:induction false} EscapeTables(n: nat)
    requires n < 7
    ensures EscapeByte(ESCAPED[n] as int) == [92, ESCAPES[n] as int]
  {
  }

  lemma {:induction false} EscapeBelow(b: byte)
    requires b < 32 && !(8 <= b <= 13 && b != 11)
    ensures EscapeByte(b) == Ascii("\\u00") + [LOWER_HEX[b / 16] as int, LOWER_HEX[b % 16] as int]
  {
  }

  /** The escapes that are printed: a backslash and the character of the second
      table, or `\u00` and two lower-case digits for the other bytes below 32. */
  lemma {:induction false} EscapeByteIs(b: byte)
    ensures var n := Place(b, ESCAPED);
      EscapeByte(b)
        == if n < 7 then [92, ESCAPES[n] as int]
           else if b < 32 then Ascii("\\u00") + [LOWER_HEX[b / 16] as int, LOWER_HEX[b % 16] as int]
           else [b]
  {
    var n := Place(b, ESCAPED);
    hide Place, Ascii;
    if n < 7 {
      EscapeTables(n);
    } else {
      assert ESCAPED[0] as int == 34 && ESCAPED[1] as int == 92 && ESCAPED[2] as int == 8;
      assert ESCAPED[3] as int == 12 && ESCAPED[4] as int == 10 && ESCAPED[5] as int == 13 && ESCAPED[6] as int == 9;
      if b < 32 {
        EscapeBelow(b);
      }
    }
  }

  function EscapeAll(s: Text): Text {
    if s == [] then [] else EscapeByte(s[0]) + EscapeAll(s[1..])
  }

  function Quoted(s: Text): Text {
    [QUOTE] + EscapeAll(s) + [QUOTE]
  }

  /** The unit the printed form of a byte is. */
  function PrintedUnit(b: byte): (u: Unit)
    requires b != 0
    ensures u.Valid() && u.Chars() == EscapeByte(b)
  {
    var e := EscapeByte(b);
    if |e| == 1 then Plain(b)
    else if |e| == 2 then Escaped(e[1])
    else Utf16(e[2..])
  }

  function PrintedUnits(s: Text): (us: seq<Unit>)
    requires NulFree(s)
    ensures |us| == |s| && AllValid(us)
  {
    if s == [] then [] else [PrintedUnit(s[0])] + PrintedUnits(s[1..])
  }

  lemma {:induction false} EscapeIsBody(s: Text, k: Text)
    requires NulFree(s)
    ensures EscapeAll(s) + k == BodyText(PrintedUnits(s), k)
  {
    if s == [] {
      assert EscapeAll(s) + k == k;
    } else {
      EscapeIsBody(s[1..], k);
      var us := PrintedUnits(s);
      assert us[1..] == PrintedUnits(s[1..]);
      assert EscapeAll(s) + k == EscapeByte(s[0]) + (EscapeAll(s[1..]) + k);
    }
  }

  lemma {:induction false} PrintedUnitDecodes(b: byte)
    requires b != 0
    ensures var u := PrintedUnit(b);
      match u
      case Plain(c) => c == b
      case Escaped(c) => Unescape(c) == b
      case Utf16(q) => QuadValue(q) == b && b < 32
  {
  }

  /** Decoding what the printer escapes gives the string back. */
  lemma {:induction false} DecodeOfPrinted(s: Text)
    requires NulFree(s)
    ensures Decode(PrintedUnits(s)) == s
  {
    if s != [] {
      DecodeOfPrinted(s[1..]);
      var us := PrintedUnits(s);
      assert us[1..] == PrintedUnits(s[1..]);
      PrintedUnitDecodes(s[0]);
      if us[0].Utf16? {
        EncodeIsUtf8(s[0]);
      }
    }
  }

  /** A printed string reads back as itself, for every NUL-free byte string. */
  lemma {:induction false} StringRoundTrip(s: Text, k: Text)
    requires NulFree(s)
    ensures ParseString(Quoted(s) + k) == Ok(s, k)
  {
    QuotedIsBody(s, k);
    DecodeOfPrinted(s);
    ParseLiteral(PrintedUnits(s), k);
  }

  lemma {:induction false} QuotedIsBody(s: Text, k: Text)
    requires NulFree(s)
    ensures Quoted(s) + k == [QUOTE] + BodyText(PrintedUnits(s), [QUOTE] + k)
  {
    EscapeIsBody(s, [QUOTE] + k);
    assert Quoted(s) + k == [QUOTE] + (EscapeAll(s) + ([QUOTE] + k));
  }

  /** A literal reads as the string it encodes, whatever follows it. */
  lemma {:induction false} ParseLiteral(us: seq<Unit>, k: Text)
    requires AllValid(us)
    ensures ParseString([QUOTE] + BodyText(us, [QUOTE] + k)) == Ok(Decode(us), k)
  {
    var body := BodyText(us, [QUOTE] + k);
    assert ([QUOTE] + body)[1..] == body;
    assert ([QUOTE] + k)[1..] == k;
    ParseBody(us, [QUOTE] + k);
  }

  /** The two passes over well-formed units agree on where they end, and what
      is written is no more than what was counted. */
  lemma {:induction false} ParseBody(us: seq<Unit>, k: Text)
    requires AllValid(us) && (Peek(k) == 0 || Peek(k) == QUOTE)
    ensures ParseString([QUOTE] + BodyText(us, k)) == Ok(Decode(us), if Peek(k) == QUOTE then k[1..] else k)
  {
    var body := BodyText(us, k);
    assert ([QUOTE] + body)[1..] == body;
    hide Loop, Raw, Decode, BodyText, Count;
    RawOfBody(us, k);
    LoopOfBody(us, k, Unset, Unset);
    DecodeFits(us);
  }

  /** `sscanf` skips the blank of `\u 0041` and reads four digits, but four
      bytes are stepped over: the last digit stays and is read once more. */
  lemma {:induction false} BlankIsSkipped()
    ensures var b: Text := [BACKSLASH, 117, 32, 48, 48, 52, 49, QUOTE];
      ParseString([QUOTE] + b) == Ok([65, 49], []) && LexBody(b).BadEscape?
  {
    var b: Text := [BACKSLASH, 117, 32, 48, 48, 52, 49, QUOTE];
    BlankTurn(b);
    PlainEnd(b[6..], 49, Set(65), Unset);
    RawOfEight(b);
    hide LoopTurn, Raw;
    assert Loop(b, Unset, Unset) == Written([65] + [49], [QUOTE]);
    assert ([QUOTE] + b)[1..] == b && [65] + [49] == [65, 49] && [QUOTE][1..] == [];
  }

  /** A `\u` in front of four bytes that are no number writes the first bits
      of the code before it once more, when there are any. */
  lemma {:induction false} UnitIsRepeated(s: Text, uc: Unsigned, uc2: Unsigned, n: nat)
    requires Peek(s) == BACKSLASH && At(s, 1) == 117 && ScanHex(s[2..]) == Set(n) && n < 0x10000
    requires LoopTurn(s, uc, uc2).Turn? && LoopTurn(s, uc, uc2).size == 6
    requires At(s, 6) == BACKSLASH && At(s, 7) == 117 && ScanHex(s[8..]).Unset? && HasFour(s[8..])
    ensures var t := LoopTurn(s, uc, uc2);
      var again := LoopTurn(s[6..], t.uc, t.uc2);
      && again.Turn?
      && again.piece == if IsLow(n) || n == 0 || 0x800 <= n < 0x1000 then []
                        else [if n < 0x80 then n else if n < 0x800 then n / 64 else n / 4096]
  {
    hide ScanHex, Encode, Shifted, CombineSurrogates;
    CodeTurnLeaves(s, uc, uc2);
    var t := LoopTurn(s, uc, uc2);
    assert s[6..][2..] == s[8..];
    EncodeIsUtf8(if n < 0x80 then n else if n < 0x800 then n / 64 else n / 64 / 64);
  }

  lemma {:induction false} BlankTurn(b: Text)
    requires b == [BACKSLASH, 117, 32, 48, 48, 52, 49, QUOTE]
    ensures LoopTurn(b, Unset, Unset) == Turn([65], 6, Set(65), Unset) && b[6..] == [49, QUOTE]
    ensures LexBody(b).BadEscape?
  {
    ScanBlank(b[2..]);
    EncodeIsUtf8(65);
    hide ScanHex, Encode;
  }

  lemma {:induction false} ScanBlank(s: Text)
    requires s == [32, 48, 48, 52, 49, QUOTE]
    ensures ScanHex(s) == Set(65)
  {
    var t := s[1..];
    assert SkipSpace(t) == t;
    assert t[1..] == [48, 52, 49, QUOTE] && t[1..][1..] == [52, 49, QUOTE];
    assert t[1..][1..][1..] == [49, QUOTE];
    assert HexRun([49, QUOTE], 1, 4) == 65;
    assert HexRun(t, 4, 0) == 65;
  }

  lemma {:induction false} PlainEnd(s: Text, b: byte, uc: Unsigned, uc2: Unsigned)
    requires s == [b, QUOTE] && Plain(b).Valid()
    ensures Loop(s, uc, uc2) == Written([b], [QUOTE])
  {
    hide CodeTurn;
    assert s[1..] == [QUOTE];
    assert Loop([QUOTE], uc, uc2) == Written([], [QUOTE]);
    assert LoopTurn(s, uc, uc2) == Turn([b], 1, uc, uc2);
    assert [b] + [] == [b];
  }

  lemma {:induction false} RawOfEight(b: Text)
    requires b == [BACKSLASH, 117, 32, 48, 48, 52, 49, QUOTE]
    ensures Raw(b) == Stop(6, [QUOTE])
  {
    RawPlain(49, [QUOTE]);
    RawPlain(52, [49, QUOTE]);
    RawPlain(48, [52, 49, QUOTE]);
    RawPlain(48, [48, 52, 49, QUOTE]);
    RawPlain(32, [48, 48, 52, 49, QUOTE]);
    assert b[2..] == [32] + [48, 48, 52, 49, QUOTE];
    assert b[1..] == [117] + b[2..];
  }

  // ------------------------------------------------------- the standard

  /** The place of a digit in one of the two tables. */
  function StandardHex(b: byte): (v: nat)
    requires IsHex(b)
    ensures v == HexValue(b)
  {
    HexDigitIs(b);
    if Place(b, LOWER_HEX) < 16 then Place(b, LOWER_HEX) else Place(b, UPPER_HEX)
  }

  lemma {:induction false} QuadOfDigits(s: Text)
    requires IsHexQuad(s)
    ensures IsQuad(s)
    ensures QuadValue(s) == HexValue(s[0]) * 4096 + HexValue(s[1]) * 256 + HexValue(s[2]) * 16 + HexValue(s[3])
  {
  }

  /** The code unit four hexadecimal digits stand for; the code reads it so. */
  function HexQuadValue(s: Text): (v: nat)
    requires IsHexQuad(s)
    ensures IsQuad(s) && v == QuadValue(s)
  {
    QuadOfDigits(s);
    hide StandardHex, QuadValue, HexValue, HasPrefix;
    StandardHex(s[0]) * 0x1000 + StandardHex(s[1]) * 0x100 + StandardHex(s[2]) * 0x10 + StandardHex(s[3])
  }

  /** The eight escapes of one character of section 7 of RFC 8259. */
  predicate IsStandardEscape(c: byte) {
    c == 34 || c == 92 || c == 47 || c == 98 || c == 102 || c == 110 || c == 114 || c == 116
  }

  /** Quotation mark, reverse solidus, solidus, backspace, form feed, line feed,
      carriage return and tab. */
  function StandardEscape(c: byte): byte
    requires IsStandardEscape(c)
  {
    match c
    case 34 => 0x22
    case 92 => 0x5C
    case 47 => 0x2F
    case 98 => 0x08
    case 102 => 0x0C
    case 110 => 0x0A
    case 114 => 0x0D
    case 116 => 0x09
  }

  /** Every escape is one of the standard, every `\u` has its four digits, and
      every surrogate belongs to a pair: the texts section 8.2 of RFC 8259 calls
      interoperable. */
  predicate Paired(us: seq<Unit>)
    requires AllValid(us)
  {
    if us == [] then true
    else if us[0].Plain? then Paired(us[1..])
    else if us[0].Escaped? then IsStandardEscape(us[0].c) && Paired(us[1..])
    else
      IsHexQuad(us[0].quad) &&
      var uc := HexQuadValue(us[0].quad);
      if IsHigh(uc) then
        && |us| > 1 && us[1].Utf16? && IsHexQuad(us[1].quad)
        && IsLow(HexQuadValue(us[1].quad)) && Paired(us[2..])
      else !IsLow(uc) && Paired(us[1..])
  }

  /** What a paired body denotes: UTF-8 of the code points of RFC 2781. */
  function StandardText(us: seq<Unit>): Text
    requires AllValid(us) && Paired(us)
  {
    if us == [] then []
    else match us[0]
      case Plain(b) => [b] + StandardText(us[1..])
      case Escaped(c) => [StandardEscape(c)] + StandardText(us[1..])
      case Utf16(q) =>
        var uc := HexQuadValue(q);
        if IsHigh(uc) then Utf8(PairScalar(uc, HexQuadValue(us[1].quad))) + StandardText(us[2..])
        else Utf8(uc) + StandardText(us[1..])
  }

  /** No high surrogate has the bit the source's `|` loses. */
  predicate NoPlaneBit(us: seq<Unit>)
    requires AllValid(us)
  {
    forall i :: 0 <= i < |us| && us[i].Utf16? && IsHigh(QuadValue(us[i].quad)) ==>
      !PlaneBitSet(QuadValue(us[i].quad))
  }

  /** No escape stands for U+0000, which the source drops. */
  predicate NoZero(us: seq<Unit>)
    requires AllValid(us)
  {
    forall i :: 0 <= i < |us| && us[i].Utf16? ==> QuadValue(us[i].quad) != 0
  }

  lemma {:induction false} NoZeroTail(us: seq<Unit>, n: nat)
    requires AllValid(us) && n <= |us|
    ensures NoZero(us) <==> NoZero(us[..n]) && NoZero(us[n..])
  {
    assert us == us[..n] + us[n..];
    if NoZero(us[..n]) && NoZero(us[n..]) {
      forall i | 0 <= i < |us| && us[i].Utf16? ensures QuadValue(us[i].quad) != 0 {
        assert us[i] == if i < n then us[..n][i] else us[n..][i - n];
      }
    }
  }

  /** What the first character of a paired body is, how many units it takes,
      and what the source makes of it. */
  function StandardHead(us: seq<Unit>): (r: (Text, Text, nat))
    requires AllValid(us) && Paired(us) && us != []
    ensures 1 <= r.2 <= |us|
  {
    match us[0]
    case Plain(b) => ([b], [b], 1)
    case Escaped(c) => ([StandardEscape(c)], [Unescape(c)], 1)
    case Utf16(q) =>
      var uc := QuadValue(q);
      if IsHigh(uc) then
        var lo := QuadValue(us[1].quad);
        (Utf8(PairScalar(uc, lo)), Encode(CombineSurrogates(uc, lo)), 2)
      else (Utf8(uc), if uc == 0 then [] else Encode(uc), 1)
  }

  lemma {:induction false} HeadAndTail(us: seq<Unit>)
    requires AllValid(us) && Paired(us) && us != []
    ensures var h := StandardHead(us);
      && Paired(us[h.2..])
      && StandardText(us) == h.0 + StandardText(us[h.2..])
      && Decode(us) == h.1 + Decode(us[h.2..])
  {
  }

  lemma {:induction false} FirstOne(us: seq<Unit>)
    requires AllValid(us) && us != [] && (us[0].Utf16? ==> !IsHigh(QuadValue(us[0].quad)))
    ensures NoPlaneBit(us[..1]) && (NoZero(us[..1]) <==> us[0].Utf16? ==> QuadValue(us[0].quad) != 0)
  {
    assert us[..1] == [us[0]];
  }

  lemma {:induction false} FirstPair(us: seq<Unit>)
    requires AllValid(us) && |us| > 1 && us[0].Utf16? && us[1].Utf16?
    requires IsHigh(QuadValue(us[0].quad)) && IsLow(QuadValue(us[1].quad))
    ensures NoZero(us[..2]) && (NoPlaneBit(us[..2]) <==> !PlaneBitSet(QuadValue(us[0].quad)))
  {
    hide PlaneBitSet;
    var p := us[..2];
    assert p[0] == us[0] && p[1] == us[1];
  }

  lemma {:induction false} PairLength(hi: nat, lo: nat)
    requires IsHigh(hi) && IsLow(lo)
    ensures |Utf8(PairScalar(hi, lo))| == 4
  {
  }

  /** Only a zero makes the two heads differ in length, and only the lost bit
      makes them differ otherwise. */
  lemma {:induction false} HeadsDiffer(us: seq<Unit>)
    requires AllValid(us) && Paired(us) && us != []
    ensures var h := StandardHead(us);
      && |h.1| <= |h.0| && (|h.1| == |h.0| <==> NoZero(us[..h.2]))
      && (NoZero(us[..h.2]) ==> (h.0 == h.1 <==> NoPlaneBit(us[..h.2])))
  {
    hide Encode, CombineSurrogates, PairScalar, PlaneBitSet, NoPlaneBit, NoZero;
    if us[0].Utf16? && IsHigh(QuadValue(us[0].quad)) {
      hide Utf8;
      FirstPair(us);
      CombineIsExact(QuadValue(us[0].quad), QuadValue(us[1].quad));
      PairLength(QuadValue(us[0].quad), QuadValue(us[1].quad));
    } else {
      FirstOne(us);
      if us[0].Utf16? {
        EncodeIsUtf8(QuadValue(us[0].quad));
      }
    }
  }

  /** The decoder's text is never longer than the standard's, and shorter
      exactly when a zero was dropped. */
  lemma {:induction false} DecodeLength(us: seq<Unit>)
    requires AllValid(us) && Paired(us)
    ensures |Decode(us)| <= |StandardText(us)|
    ensures |Decode(us)| == |StandardText(us)| <==> NoZero(us)
  {
    if us != [] {
      hide Decode, StandardText, Paired, StandardHead;
      var n := StandardHead(us).2;
      HeadAndTail(us);
      HeadsDiffer(us);
      DecodeLength(us[n..]);
      NoZeroTail(us, n);
    }
  }

  /** The decoder agrees with the standard on a well-paired body exactly when
      no high surrogate in it has the lost bit and no escape in it is zero. */
  lemma {:induction false} DecodeIsStandard(us: seq<Unit>)
    requires AllValid(us) && Paired(us)
    ensures Decode(us) == StandardText(us) <==> NoPlaneBit(us) && NoZero(us)
  {
    DecodeLength(us);
    if us != [] && NoZero(us) {
      hide Decode, StandardText, Paired, StandardHead, NoZero, NoPlaneBit;
      var h := StandardHead(us);
      HeadAndTail(us);
      HeadsDiffer(us);
      NoZeroTail(us, h.2);
      NoPlaneBitTail(us, h.2);
      DecodeIsStandard(us[h.2..]);
      SameLengthConcat(h.1, Decode(us[h.2..]), h.0, StandardText(us[h.2..]));
    }
  }

  /** The escape of U+0000 denotes one character and decodes to none. */
  lemma {:induction false} ZeroIsDropped()
    ensures var us := [Utf16([48, 48, 48, 48])];
      AllValid(us) && Paired(us) && NoPlaneBit(us) && StandardText(us) == [0] && Decode(us) == []
  {
    var us := [Utf16([48, 48, 48, 48])];
    assert us[1..] == [] && QuadValue(us[0].quad) == 0;
    assert Paired(us[1..]) && StandardText(us[1..]) == [] && Decode(us[1..]) == [];
  }

  lemma {:induction false} SameLengthConcat(a: Text, x: Text, b: Text, y: Text)
    requires |a| == |b|
    ensures a + x == b + y <==> a == b && x == y
  {
    if a + x == b + y {
      assert a == (a + x)[..|a|] && b == (b + y)[..|a|];
      assert x == (a + x)[|a|..] && y == (b + y)[|a|..];
    }
  }

  lemma {:induction false} NoPlaneBitTail(us: seq<Unit>, n: nat)
    requires AllValid(us) && n <= |us|
    ensures NoPlaneBit(us) <==> NoPlaneBit(us[..n]) && NoPlaneBit(us[n..])
  {
    assert us == us[..n] + us[n..];
    if NoPlaneBit(us[..n]) && NoPlaneBit(us[n..]) {
      forall i | 0 <= i < |us| && us[i].Utf16? && IsHigh(QuadValue(us[i].quad))
        ensures !PlaneBitSet(QuadValue(us[i].quad))
      {
        assert us[i] == if i < n then us[..n][i] else us[n..][i - n];
      }
    }
  }
}

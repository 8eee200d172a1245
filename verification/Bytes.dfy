/** Bytes, texts, and the character classes cJSON.c tests for.

    A `const char *` into a NUL-terminated buffer is modelled by the text from
    the pointer up to the NUL: advancing the pointer drops a prefix, and
    reading at the NUL is reading past the end of the text. */
module Bytes {

  type byte = b: int | 0 <= b < 256
  type Text = seq<byte>

  const TAB: byte := 9
  const NEWLINE: byte := 10
  const SPACE: byte := 32
  const QUOTE: byte := 34
  const PLUS: byte := 43
  const COMMA: byte := 44
  const MINUS: byte := 45
  const DOT: byte := 46
  const ZERO: byte := 48
  const COLON: byte := 58
  const LBRACKET: byte := 91
  const BACKSLASH: byte := 92
  const RBRACKET: byte := 93
  const LBRACE: byte := 123
  const RBRACE: byte := 125

  /** The bytes of a text of the basic character set. */
  function Ascii(s: string): (t: Text)
    requires forall i :: 0 <= i < |s| ==> s[i] as int < 128
    ensures |t| == |s| && forall i :: 0 <= i < |s| ==> t[i] == s[i] as int
  {
    seq(|s|, i requires 0 <= i < |s| => s[i] as int)
  }

  /** Where a byte stands in a table of characters. */
  function Place(b: byte, table: string): (n: nat)
    ensures n <= |table| && (n < |table| ==> table[n] as int == b)
    ensures forall j :: 0 <= j < n ==> table[j] as int != b
  {
    if table == "" || table[0] as int == b then 0
    else
      var n := Place(b, table[1..]);
      assert forall j :: 0 < j < n + 1 ==> table[j] == table[1..][j - 1];
      n + 1
  }

  const DIGITS: string := "0123456789"
  const LOWER_HEX: string := "0123456789abcdef"
  const UPPER_HEX: string := "0123456789ABCDEF"

  /** The marks the grammar names. */
  lemma {:induction false} MarksAre()
    ensures [TAB, NEWLINE, SPACE, QUOTE, PLUS, COMMA, MINUS, DOT, ZERO, COLON] == Ascii("\t\n \"+,-.0:")
    ensures [LBRACKET, BACKSLASH, RBRACKET, LBRACE, RBRACE] == Ascii("[\\]{}")
  {
  }

  /** What `*p` reads: the NUL when the text is exhausted. */
  function Peek(s: Text): byte {
    if s == [] then 0 else s[0]
  }

  /** The byte at `i`, and the NUL past the end. */
  function At(s: Text, i: nat): byte { if i < |s| then s[i] else 0 }

  predicate IsDigit(b: byte) { 48 <= b <= 57 }

  /** The digits are the characters of their table, each worth its place. */
  lemma {:induction false} DigitIs(b: byte)
    ensures IsDigit(b) <==> Place(b, DIGITS) < 10
    ensures IsDigit(b) ==> b - ZERO == Place(b, DIGITS)
  {
    var n := Place(b, DIGITS);
    if IsDigit(b) {
      assert DIGITS[b - 48] as int == b;
    }
  }

  predicate IsBlank(b: byte) { 1 <= b <= 32 }

  predicate AllBlank(s: Text) {
    forall i :: 0 <= i < |s| ==> IsBlank(s[i])
  }

  predicate NulFree(s: Text) { 0 !in s }

  /** `a` holds the C string `s`. */
  ghost predicate IsCString(a: array<byte>, s: Text)
    reads a
  {
    NulFree(s) && |s| < a.Length && a[..|s|] == s && a[|s|] == 0
  }

  /** `s` starts with `w`. */
  predicate Starts(s: Text, w: Text) {
    |w| <= |s| && forall i :: 0 <= i < |w| ==> s[i] == w[i]
  }

  /** `r` is where a cursor that started at `s` can stand. */
  predicate IsSuffix(r: Text, s: Text) {
    |r| <= |s| && r == s[|s| - |r|..]
  }

  lemma {:induction false} SuffixTrans(a: Text, b: Text, c: Text)
    requires IsSuffix(a, b) && IsSuffix(b, c)
    ensures IsSuffix(a, c)
  {
    assert c[|c| - |b|..][|b| - |a|..] == c[|c| - |a|..];
  }

  lemma {:induction false} Assoc(a: Text, b: Text, c: Text)
    ensures (a + b) + c == a + (b + c)
  {
  }

  /** The `skip` loop: jump over bytes 1 to 32. */
  function Skip(s: Text): (r: Text)
    ensures IsSuffix(r, s)
    ensures !IsBlank(Peek(r))
  {
    if s != [] && IsBlank(s[0]) then Skip(s[1..]) else s
  }

  /** Exactly the bytes from 1 to 32 at the front are skipped. */
  lemma {:induction false} SkipIs(s: Text)
    ensures var r := Skip(s); var n := |s| - |r|;
      && r == s[n..] && (forall i :: 0 <= i < n ==> 1 <= s[i] <= 32)
      && (n < |s| ==> s[n] == 0 || s[n] > 32)
  {
    if s != [] && IsBlank(s[0]) {
      SkipIs(s[1..]);
      var n := |s| - |Skip(s)|;
      assert forall i :: 1 <= i < n ==> s[i] == s[1..][i - 1];
      assert s[n..] == s[1..][n - 1..];
    }
  }

  lemma {:induction false} SkipBlanks(ws: Text, s: Text)
    requires AllBlank(ws) && !IsBlank(Peek(s))
    ensures Skip(ws + s) == s
  {
    if ws == [] {
      assert ws + s == s;
    } else {
      SkipBlanks(ws[1..], s);
      assert (ws + s)[1..] == ws[1..] + s;
    }
  }

  /** `tolower` in the C locale. */
  function ToLower(b: byte): byte {
    if 65 <= b <= 90 then b + 32 else b
  }

  function Lower(s: Text): (r: Text)
    ensures |r| == |s|
    ensures forall i :: 0 <= i < |s| ==> r[i] == ToLower(s[i])
  {
    seq(|s|, i requires 0 <= i < |s| => ToLower(s[i]))
  }

  /** What `cJSON_strcasecmp` finds equal, for two non-null strings. */
  predicate CaseEqual(s1: Text, s2: Text) {
    Lower(s1) == Lower(s2)
  }

  /** Names are equal when they are as long, and at every index are the same
      byte or the two cases of one letter from A to Z. */
  lemma {:induction false} CaseEqualIs(a: Text, b: Text)
    ensures CaseEqual(a, b)
       <==> |a| == |b|
            && forall i :: 0 <= i < |a| ==>
                 || a[i] == b[i]
                 || ('A' as int <= a[i] <= 'Z' as int && b[i] == a[i] + 32)
                 || ('A' as int <= b[i] <= 'Z' as int && a[i] == b[i] + 32)
  {
    if CaseEqual(a, b) {
      forall i | 0 <= i < |a| ensures ToLower(a[i]) == ToLower(b[i]) {
        assert Lower(a)[i] == Lower(b)[i];
      }
    }
  }
}

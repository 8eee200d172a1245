/** The loops of `parse_string` and `print_string_ptr`. */
module StringCode {
  import opened Bytes
  import opened ParsedResult
  import opened Transcode
  import opened Strings

  // --------------------------------------------------- the counting pass

  /** One turn of the counting loop. */
  lemma {:induction false} RawStep(s: Text)
    requires Raw(s).Stop?
    ensures Peek(s) == 0 || Peek(s) == QUOTE ==> Raw(s) == Stop(0, s)
    ensures Peek(s) != 0 && Peek(s) != QUOTE && s[0] == BACKSLASH ==>
      |s| >= 2 && Raw(s[2..]).Stop? && Raw(s) == AddOne(Raw(s[2..]))
    ensures Peek(s) != 0 && Peek(s) != QUOTE && s[0] != BACKSLASH ==>
      Raw(s[1..]).Stop? && Raw(s) == AddOne(Raw(s[1..]))
  {
  }

  /** The length of a literal's body: one for every byte up to the quote or the
      NUL, with the byte after a backslash skipped. */
  method CountLiteral(str: Text) returns (len: nat)
    requires Peek(str) == QUOTE && Raw(str[1..]).Stop?
    ensures len == Raw(str[1..]).len
  {
    hide Raw;
    var ptr := 1;
    len := 0;
    while Peek(str[ptr..]) != QUOTE && Peek(str[ptr..]) != 0
      invariant 1 <= ptr <= |str| && Raw(str[ptr..]).Stop?
      invariant Raw(str[1..]).len == len + Raw(str[ptr..]).len
      decreases |str| - ptr
    {
      RawStep(str[ptr..]);
      len := len + 1;
      assert str[ptr..][1..] == str[ptr + 1..];
      if str[ptr] == BACKSLASH {
        assert str[ptr..][2..] == str[ptr + 2..];
        ptr := ptr + 1;
      }
      ptr := ptr + 1;
    }
    RawStep(str[ptr..]);
  }

  // --------------------------------------------------- the decoding pass

  lemma {:induction false} DownNext(uc: nat, j: nat)
    ensures Down(uc, j + 1) == Down(uc, j) / 64
  {
    if j > 0 {
      DownNext(uc / 64, j - 1);
    }
  }

  /** The fall-through switch: `len` bytes from `ptr2` on, last byte first. The
      code is shifted away on the way. */
  method PutCode(out: array<byte>, ptr2: nat, code: nat) returns (end: nat, uc: nat)
    requires ptr2 + EncodedLength(code) <= out.Length
    modifies out
    ensures end == ptr2 + EncodedLength(code) && uc == Shifted(code)
    ensures out[..end] == old(out[..ptr2]) + Encode(code)
  {
    var len := EncodedLength(code);
    var p := ptr2 + len;
    uc, end := code, p;
    while p > ptr2 + 1
      invariant ptr2 + 1 <= p <= end && uc == Down(code, end - p)
      invariant out[..ptr2] == old(out[..ptr2])
      invariant Encode(code) == EncodeTail(uc, p - ptr2, len) + out[p..end]
    {
      DownNext(code, end - p);
      p := p - 1;
      out[p] := Continuation(uc);
      assert out[p..end] == [Continuation(uc)] + out[p + 1..end];
      uc := uc / 64;
    }
    p := p - 1;
    out[p] := FirstByte(uc, len);
    assert out[p..end] == [FirstByte(uc, len)] + out[p + 1..end];
    assert out[..end] == out[..ptr2] + out[ptr2..end];
  }

  /** The branch of `\u`; `ptr` stands at the backslash. */
  method DecodeCode(str: Text, ptr: nat, out: array<byte>, ptr2: nat, uc0: Unsigned, uc20: Unsigned)
    returns (next: nat, end: nat, uc: Unsigned, uc2: Unsigned)
    requires ptr + 2 <= |str| && CodeTurn(str[ptr..], uc0, uc20).Turn?
    requires ptr2 + |CodeTurn(str[ptr..], uc0, uc20).piece| < out.Length
    modifies out
    ensures var t := CodeTurn(str[ptr..], uc0, uc20);
      && next == ptr + t.size && uc == t.uc && uc2 == t.uc2
      && end == ptr2 + |t.piece| && out[..end] == old(out[..ptr2]) + t.piece
  {
    hide Assigned, Encode, CombineSurrogates, Shifted;
    assert str[ptr..][2..] == str[ptr + 2..];
    uc, uc2 := Assigned(uc0, str[ptr + 2..]), uc20;
    next, end := ptr + 6, ptr2;
    assert At(str[ptr..], 6) == At(str, next) && At(str[ptr..], 7) == At(str, next + 1);
    if IsLow(uc.v) || uc.v == 0 {
      return;
    }
    if IsHigh(uc.v) {
      if At(str, next) != BACKSLASH || At(str, next + 1) != 117 {
        return;
      }
      assert str[ptr..][8..] == str[next + 2..];
      uc2 := Assigned(uc2, str[next + 2..]);
      next := next + 6;
      if !IsLow(uc2.v) {
        return;
      }
      uc := Set(CombineSurrogates(uc.v, uc2.v));
    }
    var left;
    end, left := PutCode(out, ptr2, uc.v);
    uc := Set(left);
  }

  lemma {:induction false} LoopStep(s: Text, uc: Unsigned, uc2: Unsigned)
    requires Loop(s, uc, uc2).Written? && Peek(s) != 0 && s[0] != QUOTE
    ensures var t := LoopTurn(s, uc, uc2);
      && t.Turn? && Loop(s[t.size..], t.uc, t.uc2).Written?
      && Loop(s, uc, uc2) == Written(t.piece + Loop(s[t.size..], t.uc, t.uc2).text, Loop(s[t.size..], t.uc, t.uc2).rest)
  {
    hide LoopTurn;
  }

  /** One turn of the decoding loop. */
  method DecodeStep(str: Text, ptr: nat, out: array<byte>, ptr2: nat, uc0: Unsigned, uc20: Unsigned)
    returns (next: nat, end: nat, uc: Unsigned, uc2: Unsigned)
    requires ptr < |str| && str[ptr] != 0 && str[ptr] != QUOTE
    requires Loop(str[ptr..], uc0, uc20).Written?
    requires ptr2 + |Loop(str[ptr..], uc0, uc20).text| < out.Length
    modifies out
    ensures ptr < next <= |str|
    ensures var d := Loop(str[ptr..], uc0, uc20); var d' := Loop(str[next..], uc, uc2);
      && d'.Written? && d'.rest == d.rest && end + |d'.text| == ptr2 + |d.text|
      && out[..end] + d'.text == old(out[..ptr2]) + d.text
  {
    hide Loop, CodeTurn;
    LoopStep(str[ptr..], uc0, uc20);
    ghost var t := LoopTurn(str[ptr..], uc0, uc20);
    ghost var done := out[..ptr2];
    if str[ptr] == BACKSLASH && str[ptr + 1] == 117 {
      next, end, uc, uc2 := DecodeCode(str, ptr, out, ptr2, uc0, uc20);
    } else {
      uc, uc2, next, end := uc0, uc20, ptr + 1, ptr2 + 1;
      if str[ptr] == BACKSLASH {
        out[ptr2] := Unescape(str[ptr + 1]);
        next := ptr + 2;
      } else {
        out[ptr2] := str[ptr];
      }
    }
    assert str[ptr..][t.size..] == str[next..];
    Assoc(done, t.piece, Loop(str[next..], uc, uc2).text);
  }

  /** Where the loop stops nothing is left to be written. */
  lemma {:induction false} LoopEnd(s: Text, uc: Unsigned, uc2: Unsigned)
    requires Peek(s) == QUOTE || Peek(s) == 0
    ensures Loop(s, uc, uc2) == Written([], s)
  {
  }

  /** A literal whose outcome is defined, in the terms of the loop. */
  lemma {:induction false} LiteralLoop(str: Text)
    requires Peek(str) == QUOTE && !ParseString(str).Malformed?
    ensures var c, d := Raw(str[1..]), Loop(str[1..], Unset, Unset);
      && c.Stop? && d.Written? && |d.text| <= c.len
      && ParseString(str) == Ok(d.text, if Peek(d.rest) == QUOTE then d.rest[1..] else d.rest)
  {
    hide Raw, Loop;
  }

  /** The decoding loop, into a buffer of the counted length plus one. When the
      outcome is defined the buffer is not overrun. */
  method DecodeLiteral(str: Text, out: array<byte>) returns (rest: Text, ghost s: Text)
    requires Peek(str) == QUOTE && !ParseString(str).Malformed?
    requires out.Length == Raw(str[1..]).len + 1
    modifies out
    ensures ParseString(str) == Ok(s, rest)
    ensures |s| < out.Length && out[..|s|] == s && out[|s|] == 0
  {
    hide Raw, Loop, ParseString;
    LiteralLoop(str);
    ghost var all := Loop(str[1..], Unset, Unset);
    var ptr, ptr2 := 1, 0;
    var uc, uc2 := Unset, Unset;
    assert out[..0] + all.text == all.text;
    while Peek(str[ptr..]) != QUOTE && Peek(str[ptr..]) != 0
      invariant 1 <= ptr <= |str| && 0 <= ptr2
      invariant var d := Loop(str[ptr..], uc, uc2);
        && d.Written? && d.rest == all.rest && ptr2 + |d.text| == |all.text|
        && out[..ptr2] + d.text == all.text
      decreases |str| - ptr
    {
      ptr, ptr2, uc, uc2 := DecodeStep(str, ptr, out, ptr2, uc, uc2);
    }
    LoopEnd(str[ptr..], uc, uc2);
    s := out[..ptr2];
    assert s + [] == s;
    out[ptr2] := 0;
    rest := str[ptr..];
    if Peek(rest) == QUOTE {
      rest := rest[1..];
    }
  }

  // ------------------------------------------------------ print_string_ptr

  /** The length the counting loop adds for one byte. */
  lemma {:induction false} EscapeLength(b: byte)
    ensures |EscapeByte(b)| == (if b == QUOTE || b == BACKSLASH || b == 8 || b == 12 || b == 10 || b == 13 || b == 9
                                then 2 else if b < 32 then 6 else 1)
  {
  }

  lemma {:induction false} EscapeRest(s: Text, i: nat)
    requires i < |s|
    ensures EscapeAll(s[i..]) == EscapeByte(s[i]) + EscapeAll(s[i + 1..])
  {
    assert s[i..][1..] == s[i + 1..];
  }

  /** The loop that counts the printed length of a string, byte by byte. */
  method CountEscaped(str: array<byte>, ghost s: Text) returns (len: nat)
    requires IsCString(str, s)
    ensures len == |EscapeAll(s)|
  {
    var i := 0;
    len := 0;
    assert s[0..] == s;
    while str[i] != 0
      invariant 0 <= i <= |s|
      invariant len + |EscapeAll(s[i..])| == |EscapeAll(s)|
      decreases |s| - i
    {
      assert str[..|s|][i] == s[i];
      EscapeRest(s, i);
      EscapeLength(s[i]);
      var token := str[i];
      len := len + 1;
      if token == QUOTE || token == BACKSLASH || token == 8 || token == 12 || token == 10 || token == 13 || token == 9 {
        len := len + 1;
      } else if token < 32 {
        len := len + 5;
      }
      i := i + 1;
    }
    assert i == |s|;
  }

  /** Both branches of the writing loop for one byte; `sprintf` also writes a
      NUL after the five characters. */
  method PutEscaped(out: array<byte>, ptr2: nat, token: byte) returns (end: nat)
    requires ptr2 + |EscapeByte(token)| < out.Length
    modifies out
    ensures end == ptr2 + |EscapeByte(token)|
    ensures out[..end] == old(out[..ptr2]) + EscapeByte(token)
  {
    if token > 31 && token != QUOTE && token != BACKSLASH {
      out[ptr2] := token;
      return ptr2 + 1;
    }
    out[ptr2] := BACKSLASH;
    if token == BACKSLASH {
      out[ptr2 + 1] := BACKSLASH;
    } else if token == QUOTE {
      out[ptr2 + 1] := QUOTE;
    } else if token == 8 {
      out[ptr2 + 1] := 98;
    } else if token == 12 {
      out[ptr2 + 1] := 102;
    } else if token == 10 {
      out[ptr2 + 1] := 110;
    } else if token == 13 {
      out[ptr2 + 1] := 114;
    } else if token == 9 {
      out[ptr2 + 1] := 116;
    } else {
      out[ptr2 + 1] := 117;
      out[ptr2 + 2], out[ptr2 + 3] := 48, 48;
      out[ptr2 + 4], out[ptr2 + 5] := HexDigit(token / 16), HexDigit(token % 16);
      out[ptr2 + 6] := 0;
      return ptr2 + 6;
    }
    end := ptr2 + 2;
  }

  /** `print_string_ptr`: the text of the literal, and an empty text for null,
      in a block of exactly its length and the NUL. */
  method PrintStringPtr(str: array?<byte>, ghost s: Text) returns (out: array<byte>)
    requires str != null ==> IsCString(str, s)
    ensures var text := if str == null then [] else Quoted(s);
      fresh(out) && IsCString(out, text) && out.Length == |text| + 1
  {
    if str == null {
      out := new byte[1](i => 0);
      return;
    }
    var len := CountEscaped(str, s);
    out := new byte[len + 3];
    out[0] := QUOTE;
    var ptr2 := 1;
    var i := 0;
    assert s[0..] == s;
    assert out[..1] == [QUOTE];
    while str[i] != 0
      invariant 0 <= i <= |s| && IsCString(str, s)
      invariant 1 <= ptr2 && ptr2 + |EscapeAll(s[i..])| + 2 == out.Length
      invariant out[..ptr2] + EscapeAll(s[i..]) == [QUOTE] + EscapeAll(s)
      decreases |s| - i
    {
      assert str[..|s|][i] == s[i];
      EscapeRest(s, i);
      Assoc(out[..ptr2], EscapeByte(s[i]), EscapeAll(s[i + 1..]));
      ptr2 := PutEscaped(out, ptr2, str[i]);
      i := i + 1;
    }
    assert i == |s|;
    assert out[..ptr2] + [] == out[..ptr2];
    out[ptr2] := QUOTE;
    out[ptr2 + 1] := 0;
    assert out[..ptr2 + 1] == Quoted(s);
    QuotedNulFree(s);
  }

  lemma {:induction false} EscapeNulFree(s: Text)
    requires NulFree(s)
    ensures NulFree(EscapeAll(s))
  {
    if s != [] {
      EscapeNulFree(s[1..]);
    }
  }

  lemma {:induction false} QuotedNulFree(s: Text)
    requires NulFree(s)
    ensures NulFree(Quoted(s))
  {
    EscapeNulFree(s);
  }
}

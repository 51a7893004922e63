/** stream_str.go: the two string writers, and reading their output back. */
module StreamStr {
  import opened Bytes
  import opened StreamCore
  import opened StringMachines
  import opened Utf8

  // ---------- Escapes ----------

  /** `safeSet` */
  predicate SafeSet(b: byte)
    requires b < 0x80
  {
    SPACE <= b && b != QUOTE && b != BACKSLASH
  }

  /** `htmlSafeSet` */
  predicate HtmlSafeSet(b: byte)
    requires b < 0x80
  {
    SafeSet(b) && b != 0x3C && b != 0x3E && b != 0x26
  }

  /** `hexChars` */
  function HexChar(d: int): byte
    requires 0 <= d < 16
  {
    if d < 10 then ZERO + d else LOWER_A + (d - 10)
  }

  /** How both writers escape an ASCII byte. */
  function EscapeByte(b: byte): seq<byte> {
    if b == BACKSLASH || b == QUOTE then [BACKSLASH, b]
    else if b == LINE_FEED then [BACKSLASH, LOWER_N]
    else if b == CARRIAGE_RETURN then [BACKSLASH, LOWER_R]
    else if b == TAB then [BACKSLASH, LOWER_T]
    else [BACKSLASH, LOWER_U, ZERO, ZERO, HexChar(b / 16), HexChar(b % 16)]
  }

  /** The `switch b` of both slow paths. */
  method WriteEscape(stream: Stream, b: byte)
    modifies stream`buf
    ensures stream.buf == old(stream.buf) + EscapeByte(b)
  {
    if b == BACKSLASH || b == QUOTE {
      stream.WriteTwoBytes(BACKSLASH, b);
    } else if b == LINE_FEED {
      stream.WriteTwoBytes(BACKSLASH, LOWER_N);
    } else if b == CARRIAGE_RETURN {
      stream.WriteTwoBytes(BACKSLASH, LOWER_R);
    } else if b == TAB {
      stream.WriteTwoBytes(BACKSLASH, LOWER_T);
    } else {
      stream.WriteRaw([BACKSLASH, LOWER_U, ZERO, ZERO]);
      stream.WriteTwoBytes(HexChar(b / 16), HexChar(b % 16));
    }
  }

  /** An escaped ASCII byte in front of anything decodes to that byte. */
  lemma DecodeEscapeByte(b: byte, t: seq<byte>, j: nat, rest: seq<byte>)
    requires b < 0x80 && At(t, j, EscapeByte(b) + rest)
    ensures Decode(t, j) == Prepend([b], Decode(t, j + |EscapeByte(b)|))
    ensures At(t, j + |EscapeByte(b)|, rest)
  {
    hide Escape, EscapeByte;
    AtConcat(t, j, EscapeByte(b), rest);
    ReadEscapeByte(b, t, j);
  }

  lemma ReadEscapeByte(b: byte, t: seq<byte>, j: nat)
    requires b < 0x80 && At(t, j, EscapeByte(b))
    ensures j + 1 < |t| && t[j] == BACKSLASH
    ensures Escape(t, j + 1) == Ok([b], j + |EscapeByte(b)|)
  {
    hide At, HexChar;
    var e := EscapeByte(b);
    assert [] + [b] == [b];
    AtIndex(t, j, e, 0);
    AtIndex(t, j, e, 1);
    if |e| == 6 {
      AtIndex(t, j, e, 2);
      AtIndex(t, j, e, 3);
      AtIndex(t, j, e, 4);
      AtIndex(t, j, e, 5);
      HexChars(b);
      assert HexAt(t, j + 2) && U4(t, j + 2) == b;
    }
  }

  lemma HexChars(b: byte)
    ensures IsHex(HexChar(b / 16)) && IsHex(HexChar(b % 16))
    ensures HexValue(HexChar(b / 16)) * 16 + HexValue(HexChar(b % 16)) == b
  {
  }

  // ---------- WriteString ----------

  predicate Plain(b: byte) {
    b >= 0x80 || SafeSet(b)
  }

  /** `s` as the body of a JSON string. */
  function EscapeAll(s: seq<byte>): seq<byte> {
    if s == [] then []
    else (if Plain(s[0]) then [s[0]] else EscapeByte(s[0])) + EscapeAll(s[1..])
  }

  /**
   * Reading back what `WriteString` writes gives every byte sequence exactly, valid UTF-8 or not, and stops
   * just past the closing quote.
   */
  lemma {:induction false} StringRoundTrip(s: seq<byte>, t: seq<byte>, j: nat)
    requires At(t, j, EscapeAll(s) + [QUOTE])
    ensures Decode(t, j) == Ok(s, j + |EscapeAll(s)| + 1)
    decreases |s|
  {
    hide At, EscapeByte, Decode, Prepend;
    if s == [] {
      assert EscapeAll(s) + [QUOTE] == [QUOTE];
      AtIndex(t, j, [QUOTE], 0);
      DecodeByte(t, j);
    } else {
      var rest := EscapeAll(s[1..]) + [QUOTE];
      PrependOne(s, j + |EscapeAll(s)| + 1);
      if Plain(s[0]) {
        assert EscapeAll(s) + [QUOTE] == [s[0]] + rest;
        AtConcat(t, j, [s[0]], rest);
        AtIndex(t, j, [s[0]], 0);
        DecodeByte(t, j);
        StringRoundTrip(s[1..], t, j + 1);
      } else {
        assert EscapeAll(s) + [QUOTE] == EscapeByte(s[0]) + rest;
        DecodeEscapeByte(s[0], t, j, rest);
        StringRoundTrip(s[1..], t, j + |EscapeByte(s[0])|);
      }
    }
  }

  lemma DecodeByte(t: seq<byte>, j: nat)
    requires j < |t|
    ensures t[j] == QUOTE ==> Decode(t, j) == Ok([], j + 1)
    ensures Plain(t[j]) ==> Decode(t, j) == Prepend([t[j]], Decode(t, j + 1))
  {
  }

  lemma PrependOne(s: seq<byte>, next: nat)
    requires s != []
    ensures Prepend([s[0]], Ok(s[1..], next)) == Ok(s, next)
  {
    assert s == [s[0]] + s[1..];
  }

  /** `WriteString` */
  method WriteString(stream: Stream, s: seq<byte>)
    modifies stream`buf
    ensures stream.buf == old(stream.buf) + [QUOTE] + EscapeAll(s) + [QUOTE]
  {
    var valLen := |s|;
    stream.buf := stream.buf + [QUOTE];
    ghost var base := stream.buf;
    assert s[0..] == s;
    // copied as they are: bytes that need no escape
    var i := 0;
    while i < valLen && s[i] > 31 && s[i] != QUOTE && s[i] != BACKSLASH
      invariant 0 <= i <= valLen
      invariant stream.buf + EscapeAll(s[i..]) == base + EscapeAll(s)
    {
      assert s[i..][1..] == s[i + 1..];
      assert stream.buf + ([s[i]] + EscapeAll(s[i + 1..])) == stream.buf + [s[i]] + EscapeAll(s[i + 1..]);
      stream.buf := stream.buf + [s[i]];
      i := i + 1;
    }
    if i == valLen {
      stream.buf := stream.buf + [QUOTE];
      return;
    }
    WriteStringSlowPath(stream, i, s, valLen);
  }

  /** What the slow path has still to make of `s`: `s[start..i]` is looked at but not written yet. */
  ghost function Output(buf: seq<byte>, s: seq<byte>, start: nat, i: nat): seq<byte>
    requires start <= i <= |s|
  {
    buf + s[start..i] + EscapeAll(s[i..])
  }

  lemma OutputPlain(buf: seq<byte>, s: seq<byte>, start: nat, i: nat)
    requires start <= i < |s| && Plain(s[i])
    ensures Output(buf, s, start, i) == Output(buf, s, start, i + 1)
  {
    assert s[i..][1..] == s[i + 1..] && s[start..i + 1] == s[start..i] + [s[i]];
  }

  lemma OutputEscaped(buf: seq<byte>, s: seq<byte>, start: nat, i: nat)
    requires start <= i < |s| && !Plain(s[i])
    ensures Output(buf, s, start, i) == Output(buf + s[start..i] + EscapeByte(s[i]), s, i + 1, i + 1)
  {
    hide EscapeByte;
    assert s[i..][1..] == s[i + 1..] && s[i + 1..i + 1] == [];
  }

  /** `writeStringSlowPath`: the bytes from `i` on, escaped, and the closing quote. */
  method WriteStringSlowPath(stream: Stream, i: nat, s: seq<byte>, valLen: nat)
    requires i <= valLen == |s|
    modifies stream`buf
    ensures stream.buf == old(stream.buf) + EscapeAll(s[i..]) + [QUOTE]
  {
    hide EscapeByte, Output;
    var start, i := i, i;
    ghost var target := stream.buf + EscapeAll(s[i..]);
    OutputIs(stream.buf, s, i, i);
    while i < valLen
      invariant 0 <= start <= i <= valLen
      invariant Output(stream.buf, s, start, i) == target
    {
      var b := s[i];
      if b < 0x80 && !SafeSet(b) {
        OutputEscaped(stream.buf, s, start, i);
        ghost var out := stream.buf + s[start..i];
        if start < i {
          stream.WriteRaw(s[start..i]);
        }
        assert stream.buf == out;
        WriteEscape(stream, b);
        i := i + 1;
        start := i;
      } else {
        OutputPlain(stream.buf, s, start, i);
        i := i + 1;
      }
    }
    OutputIs(stream.buf, s, start, i);
    if start < |s| {
      stream.WriteRaw(s[start..]);
    }
    stream.WriteByte(QUOTE);
  }

  lemma OutputIs(buf: seq<byte>, s: seq<byte>, start: nat, i: nat)
    requires start <= i <= |s|
    ensures start == i ==> Output(buf, s, start, i) == buf + EscapeAll(s[i..])
    ensures i == |s| ==> Output(buf, s, start, i) == buf + s[start..]
  {
  }
}

/** stream_str.go: the string writer with HTML escaping, and reading its output back. */
module StreamHtml {
  import opened Bytes
  import opened StreamCore
  import opened StreamStr
  import opened StringMachines
  import opened Utf8

  const REPLACEMENT_TEXT: seq<byte> := [BACKSLASH, LOWER_U, LOWER_F, LOWER_F, LOWER_F, 0x64]
  const REPLACEMENT_UTF8: seq<byte> := [0xEF, 0xBF, 0xBD]

  predicate IsLineSeparator(c: int) {
    c == 0x2028 || c == 0x2029
  }

  /** How much of `t` the writer takes at once: a character, or one byte that starts none. */
  function UnitSize(t: seq<byte>): (n: nat)
    requires t != []
    ensures 1 <= n <= |t|
  {
    DecodeRune(t).1
  }

  /** What it writes for that unit. */
  function UnitText(t: seq<byte>): (u: seq<byte>)
    requires t != []
    ensures u != []
  {
    if t[0] < 0x80 then (if HtmlSafeSet(t[0]) then [t[0]] else EscapeByte(t[0]))
    else
      var (c, size) := DecodeRune(t);
      if c == REPLACEMENT && size == 1 then REPLACEMENT_TEXT
      else if IsLineSeparator(c) then [BACKSLASH, LOWER_U, 0x32, ZERO, 0x32, HexChar(c % 16)]
      else t[..size]
  }

  /** `s` as the body of a JSON string that is safe in HTML and JavaScript. */
  function EscapeHtml(s: seq<byte>): seq<byte> {
    if s == [] then [] else UnitText(s) + EscapeHtml(s[UnitSize(s)..])
  }

  /** The unit with a byte that starts no character replaced by U+FFFD. */
  function SanitizedUnit(t: seq<byte>): seq<byte>
    requires t != []
  {
    if CharLength(t) == 0 then REPLACEMENT_UTF8 else t[..CharLength(t)]
  }

  /** `s` with every byte that starts no UTF-8 character replaced by U+FFFD. */
  function Sanitize(s: seq<byte>): seq<byte> {
    if s == [] then [] else SanitizedUnit(s) + Sanitize(s[UnitSize(s)..])
  }

  // ---------- Sanitizing ----------

  lemma {:induction false} SanitizeKeepsValid(s: seq<byte>)
    requires ValidUtf8(s)
    ensures Sanitize(s) == s
    decreases |s|
  {
    hide CharLength;
    if s != [] {
      var n := CharLength(s);
      SanitizeKeepsValid(s[n..]);
      assert s == s[..n] + s[n..];
    }
  }

  lemma {:induction false} SanitizeIsValid(s: seq<byte>)
    ensures ValidUtf8(Sanitize(s))
    decreases |s|
  {
    hide CharLength;
    if s != [] {
      SanitizeIsValid(s[UnitSize(s)..]);
      SanitizedUnitIsValid(s);
      ValidConcat(SanitizedUnit(s), Sanitize(s[UnitSize(s)..]));
    }
  }

  lemma SanitizedUnitIsValid(s: seq<byte>)
    requires s != []
    ensures ValidUtf8(SanitizedUnit(s))
  {
    var n := CharLength(s);
    if n > 0 {
      OneCharIsValid(s);
    } else {
      assert CharLength(REPLACEMENT_UTF8) == 3 && REPLACEMENT_UTF8[3..] == [];
    }
  }

  lemma OneCharIsValid(s: seq<byte>)
    requires CharLength(s) > 0
    ensures ValidUtf8(s[..CharLength(s)])
  {
    var n := CharLength(s);
    assert CharLength(s[..n]) == n && s[..n][n..] == [];
  }

  // ---------- Reading back ----------

  lemma DecodeUnit(s: seq<byte>, t: seq<byte>, j: nat, rest: seq<byte>)
    requires s != [] && At(t, j, UnitText(s) + rest)
    ensures Decode(t, j) == Prepend(SanitizedUnit(s), Decode(t, j + |UnitText(s)|))
    ensures At(t, j + |UnitText(s)|, rest)
  {
    hide EscapeByte, Decode, HexChar, CharLength, Rune2, Rune3, Rune4;
    var u := UnitText(s);
    AtConcat(t, j, u, rest);
    if s[0] < 0x80 {
      AsciiUnit(s, t, j, rest);
    } else if CharLength(s) == 0 {
      ReplacementUnit(t, j);
    } else if IsLineSeparator(DecodeRune(s).0) {
      SeparatorUnit(s, t, j);
    } else {
      NonAscii(s);
      var n := CharLength(s);
      AtSlice(s, 0, n, t, j);
      assert s[0..n] == s[..n] == t[j..j + n];
      forall k | j <= k < j + n ensures IsPlain(t[k]) {
        assert t[j + (k - j)] == s[k - j];
      }
      DecodePlainRun(t, j, j + n);
    }
  }

  lemma AsciiUnit(s: seq<byte>, t: seq<byte>, j: nat, rest: seq<byte>)
    requires s != [] && s[0] < 0x80 && At(t, j, UnitText(s) + rest)
    ensures Decode(t, j) == Prepend(SanitizedUnit(s), Decode(t, j + |UnitText(s)|))
  {
    hide EscapeByte, Decode;
    assert s[..1] == [s[0]];
    if HtmlSafeSet(s[0]) {
      AtIndex(t, j, UnitText(s) + rest, 0);
      DecodeByte(t, j);
    } else {
      DecodeEscapeByte(s[0], t, j, rest);
    }
  }

  lemma ReplacementUnit(t: seq<byte>, j: nat)
    requires At(t, j, REPLACEMENT_TEXT)
    ensures Decode(t, j) == Prepend(REPLACEMENT_UTF8, Decode(t, j + 6))
  {
    hide Decode;
    EscapeThere(REPLACEMENT_TEXT, t, j);
    assert U4(REPLACEMENT_TEXT, 2) == REPLACEMENT;
    DecodeUnicodeEscape(t, j);
  }

  lemma SeparatorUnit(s: seq<byte>, t: seq<byte>, j: nat)
    requires s != [] && IsLineSeparator(DecodeRune(s).0) && CharLength(s) > 0
    requires At(t, j, UnitText(s)) && s[0] >= 0x80
    ensures Decode(t, j) == Prepend(SanitizedUnit(s), Decode(t, j + 6)) && |UnitText(s)| == 6
  {
    hide Decode, CharLength, Rune2, Rune3, Rune4;
    var c := DecodeRune(s).0;
    var u := UnitText(s);
    EscapeThere(u, t, j);
    assert HexChar(c % 16) == ZERO + c % 16;
    assert U4(u, 2) == 0x2020 + c % 16 == c;
    DecodeUnicodeEscape(t, j);
    DecodeEncode(s);
  }

  /** Six bytes that are a `\\u` escape somewhere are one wherever they occur. */
  lemma EscapeThere(u: seq<byte>, t: seq<byte>, j: nat)
    requires |u| == 6 && u[0] == BACKSLASH && u[1] == LOWER_U && HexAt(u, 2) && At(t, j, u)
    ensures j + 6 <= |t| && t[j] == BACKSLASH && t[j + 1] == LOWER_U
    ensures HexAt(t, j + 2) && U4(t, j + 2) == U4(u, 2)
  {
    hide At;
    AtIndex(t, j, u, 0);
    AtIndex(t, j, u, 1);
    AtIndex(t, j, u, 2);
    AtIndex(t, j, u, 3);
    AtIndex(t, j, u, 4);
    AtIndex(t, j, u, 5);
  }

  lemma DecodeUnicodeEscape(t: seq<byte>, j: nat)
    requires j + 6 <= |t| && t[j] == BACKSLASH && t[j + 1] == LOWER_U && HexAt(t, j + 2)
    requires IsScalar(U4(t, j + 2))
    ensures Decode(t, j) == Prepend(EncodeScalar(U4(t, j + 2)), Decode(t, j + 6))
  {
    hide EncodeScalar, HexAt, U4;
  }

  /** Every byte of a character outside ASCII is plain. */
  lemma NonAscii(s: seq<byte>)
    requires CharLength(s) > 0 && s[0] >= 0x80
    ensures forall k :: 0 <= k < CharLength(s) ==> s[k] >= 0x80
  {
  }

  /**
   * Reading back the HTML-safe form gives the string with its undecodable bytes replaced by U+FFFD, so the
   * string itself when it is valid UTF-8 (`SanitizeKeepsValid`).
   */
  lemma {:induction false} HtmlRoundTrip(s: seq<byte>, t: seq<byte>, j: nat)
    requires At(t, j, EscapeHtml(s) + [QUOTE])
    ensures Decode(t, j) == Ok(Sanitize(s), j + |EscapeHtml(s)| + 1)
    decreases |s|
  {
    hide At, Decode, UnitText, UnitSize, SanitizedUnit;
    if s == [] {
      assert EscapeHtml(s) + [QUOTE] == [QUOTE];
      AtIndex(t, j, [QUOTE], 0);
      DecodeByte(t, j);
    } else {
      var rest := EscapeHtml(s[UnitSize(s)..]) + [QUOTE];
      assert EscapeHtml(s) + [QUOTE] == UnitText(s) + rest;
      DecodeUnit(s, t, j, rest);
      HtmlRoundTrip(s[UnitSize(s)..], t, j + |UnitText(s)|);
    }
  }

  // ---------- What the text cannot contain ----------

  /** No control character, no '<', '>' or '&'. */
  predicate IsHtmlByte(b: byte) {
    b >= SPACE && b != 0x3C && b != 0x3E && b != 0x26
  }

  /** The three bytes of U+2028 or U+2029 stand at `k`. */
  predicate SeparatorAt(t: seq<byte>, k: nat) {
    k + 3 <= |t| && t[k] == 0xE2 && t[k + 1] == 0x80 && (t[k + 2] == 0xA8 || t[k + 2] == 0xA9)
  }

  ghost predicate IsHtmlSafe(t: seq<byte>) {
    && ValidUtf8(t)
    && (forall k :: 0 <= k < |t| ==> IsHtmlByte(t[k]))
    && (forall k :: 0 <= k < |t| ==> !SeparatorAt(t, k))
  }

  /** A unit is valid UTF-8 of safe bytes, and starts no separator, whatever follows. */
  lemma UnitTextSafe(s: seq<byte>)
    requires s != []
    ensures ValidUtf8(UnitText(s))
    ensures forall k :: 0 <= k < |UnitText(s)| ==> IsHtmlByte(UnitText(s)[k])
    ensures UnitStartsNoSeparator(UnitText(s))
  {
    hide Rune2, Rune3, Rune4;
    var c := DecodeRune(s).0;
    if s[0] < 0x80 {
      if HtmlSafeSet(s[0]) {
        ValidAscii(s[0]);
      } else {
        EscapeByteSafe(s[0]);
      }
    } else if CharLength(s) == 0 {
      AsciiSafe(REPLACEMENT_TEXT);
    } else if IsLineSeparator(c) {
      AsciiSafe([BACKSLASH, LOWER_U, 0x32, ZERO, 0x32, HexChar(c % 16)]);
    } else {
      OneCharIsValid(s);
      CharStartsNoSeparator(s);
    }
  }

  lemma EscapeByteSafe(b: byte)
    requires b < 0x80 && !HtmlSafeSet(b)
    ensures ValidUtf8(EscapeByte(b)) && UnitStartsNoSeparator(EscapeByte(b))
    ensures forall k :: 0 <= k < |EscapeByte(b)| ==> IsHtmlByte(EscapeByte(b)[k])
  {
    AsciiSafe(EscapeByte(b));
  }

  /** No separator can start inside `u`: 0xE2 is only its first byte, and then `u` is another character. */
  predicate UnitStartsNoSeparator(u: seq<byte>) {
    && (forall k :: 1 <= k < |u| ==> u[k] != 0xE2)
    && (u != [] && u[0] == 0xE2 ==> |u| == 3 && !SeparatorAt(u, 0))
  }

  lemma {:induction false} AsciiSafe(u: seq<byte>)
    requires forall k :: 0 <= k < |u| ==> u[k] < 0x80
    ensures ValidUtf8(u) && UnitStartsNoSeparator(u)
  {
    if u != [] {
      AsciiSafe(u[1..]);
    }
  }

  lemma CharStartsNoSeparator(s: seq<byte>)
    requires CharLength(s) > 0 && !IsLineSeparator(DecodeRune(s).0) && s[0] >= 0x80
    ensures UnitStartsNoSeparator(s[..CharLength(s)])
    ensures forall k :: 0 <= k < CharLength(s) ==> IsHtmlByte(s[k])
  {
  }

  lemma SafeConcat(u: seq<byte>, rest: seq<byte>)
    requires ValidUtf8(u) && UnitStartsNoSeparator(u) && IsHtmlSafe(rest)
    requires forall k :: 0 <= k < |u| ==> IsHtmlByte(u[k])
    ensures IsHtmlSafe(u + rest)
  {
    hide ValidUtf8, SeparatorAt, IsHtmlByte, UnitStartsNoSeparator;
    ValidConcat(u, rest);
    forall k | 0 <= k < |u + rest| ensures IsHtmlByte((u + rest)[k]) && !SeparatorAt(u + rest, k) {
      if k < |u| {
        NoSeparatorInUnit(u, rest, k);
      } else {
        SeparatorBehind(u, rest, k);
      }
    }
  }

  lemma NoSeparatorInUnit(u: seq<byte>, rest: seq<byte>, k: nat)
    requires UnitStartsNoSeparator(u) && k < |u|
    ensures !SeparatorAt(u + rest, k)
  {
    assert (u + rest)[k] == u[k];
    if u[0] == 0xE2 && k == 0 {
      assert (u + rest)[1] == u[1] && (u + rest)[2] == u[2];
    }
  }

  lemma SeparatorBehind(u: seq<byte>, rest: seq<byte>, k: nat)
    requires |u| <= k < |u + rest|
    ensures SeparatorAt(u + rest, k) == SeparatorAt(rest, k - |u|)
  {
  }

  /** The text written is valid UTF-8 and safe inside HTML and JavaScript. */
  lemma {:induction false} EscapeHtmlIsSafe(s: seq<byte>)
    ensures IsHtmlSafe(EscapeHtml(s))
    decreases |s|
  {
    hide UnitText, UnitSize, UnitStartsNoSeparator;
    if s != [] {
      var rest := s[UnitSize(s)..];
      EscapeHtmlIsSafe(rest);
      UnitTextSafe(s);
      SafeConcat(UnitText(s), EscapeHtml(rest));
    }
  }

  // ---------- The writer ----------

  /** What the slow path has still to make of `s`: `s[start..i]` is looked at but not written yet. */
  ghost function HtmlOutput(buf: seq<byte>, s: seq<byte>, start: nat, i: nat): seq<byte>
    requires start <= i <= |s|
  {
    buf + s[start..i] + EscapeHtml(s[i..])
  }

  lemma HtmlOutputIs(buf: seq<byte>, s: seq<byte>, start: nat, i: nat)
    requires start <= i <= |s|
    ensures start == i ==> HtmlOutput(buf, s, start, i) == buf + EscapeHtml(s[i..])
    ensures i == |s| ==> HtmlOutput(buf, s, start, i) == buf + s[start..]
  {
    hide UnitText, UnitSize;
    if i == |s| {
      assert s[i..] == [] && EscapeHtml([]) == [];
      assert s[start..i] == s[start..];
    }
  }

  /** The unit at `i` is written as it is, or as something else. */
  lemma HtmlOutputStep(buf: seq<byte>, s: seq<byte>, start: nat, i: nat)
    requires start <= i < |s|
    ensures var n := UnitSize(s[i..]);
      && (UnitText(s[i..]) == s[i..i + n] ==> HtmlOutput(buf, s, start, i) == HtmlOutput(buf, s, start, i + n))
      && HtmlOutput(buf, s, start, i) == HtmlOutput(buf + s[start..i] + UnitText(s[i..]), s, i + n, i + n)
  {
    hide UnitText, UnitSize;
    var n, text := UnitSize(s[i..]), UnitText(s[i..]);
    var rest := EscapeHtml(s[i + n..]);
    assert s[i..][n..] == s[i + n..] && s[start..i + n] == s[start..i] + s[i..i + n] && s[i + n..i + n] == [];
    assert buf + s[start..i] + (text + rest) == buf + s[start..i] + text + rest;
  }

  /** A byte that needs no escape is written as it is. */
  lemma SafeByteFirst(s: seq<byte>, i: nat)
    requires i < |s| && s[i] < 0x80 && HtmlSafeSet(s[i])
    ensures EscapeHtml(s[i..]) == [s[i]] + EscapeHtml(s[i + 1..])
  {
    hide EscapeByte;
    AsciiIsOneUnit(s[i..]);
    assert s[i..][1..] == s[i + 1..];
  }

  lemma NothingIsWritten(s: seq<byte>)
    ensures s[|s|..] == [] && EscapeHtml([]) == []
  {
  }

  /** `WriteStringWithHTMLEscaped` */
  method WriteStringWithHTMLEscaped(stream: Stream, s: seq<byte>)
    modifies stream`buf
    ensures stream.buf == old(stream.buf) + [QUOTE] + EscapeHtml(s) + [QUOTE]
  {
    hide EscapeByte, EscapeHtml, UnitText, UnitSize;
    var valLen := |s|;
    stream.buf := stream.buf + [QUOTE];
    ghost var base := stream.buf;
    assert s[0..] == s;
    // copied as they are: bytes that need no escape
    var i := 0;
    while i < valLen && s[i] < 0x80 && HtmlSafeSet(s[i])
      invariant 0 <= i <= valLen
      invariant stream.buf + EscapeHtml(s[i..]) == base + EscapeHtml(s)
    {
      SafeByteFirst(s, i);
      assert stream.buf + ([s[i]] + EscapeHtml(s[i + 1..])) == stream.buf + [s[i]] + EscapeHtml(s[i + 1..]);
      stream.buf := stream.buf + [s[i]];
      i := i + 1;
    }
    if i == valLen {
      NothingIsWritten(s);
      stream.buf := stream.buf + [QUOTE];
      return;
    }
    WriteHtmlSlowPath(stream, i, s, valLen);
  }

  /** `writeStringSlowPathWithHTMLEscaped` */
  method WriteHtmlSlowPath(stream: Stream, i: nat, s: seq<byte>, valLen: nat)
    requires i <= valLen == |s|
    modifies stream`buf
    ensures stream.buf == old(stream.buf) + EscapeHtml(s[i..]) + [QUOTE]
  {
    hide EscapeByte, HtmlOutput, EscapeHtml, CharLength, Rune2, Rune3, Rune4, HexChar;
    var start, i := i, i;
    ghost var target := stream.buf + EscapeHtml(s[i..]);
    HtmlOutputIs(stream.buf, s, i, i);
    while i < valLen
      invariant 0 <= start <= i <= valLen
      invariant HtmlOutput(stream.buf, s, start, i) == target
    {
      HtmlOutputStep(stream.buf, s, start, i);
      var b := s[i];
      var rest := s[i..];
      assert rest[0] == b;
      var c, size := DecodeRune(rest).0, DecodeRune(rest).1;
      if b < 0x80 && HtmlSafeSet(b) {
        AsciiIsOneUnit(rest);
        i := i + 1;
        continue;
      }
      ghost var out := stream.buf + s[start..i];
      if b < 0x80 {
        AsciiIsOneUnit(rest);
        if start < i {
          stream.WriteRaw(s[start..i]);
        }
        assert stream.buf == out;
        WriteEscape(stream, b);
        i := i + 1;
        start := i;
      } else if c == REPLACEMENT && size == 1 {
        if start < i {
          stream.WriteRaw(s[start..i]);
        }
        assert stream.buf == out;
        stream.WriteRaw(REPLACEMENT_TEXT);
        i := i + 1;
        start := i;
      } else if IsLineSeparator(c) {
        if start < i {
          stream.WriteRaw(s[start..i]);
        }
        stream.WriteRaw([BACKSLASH, LOWER_U, 0x32, ZERO, 0x32]);
        stream.WriteByte(HexChar(c % 16));
        assert stream.buf == out + UnitText(rest);
        i := i + size;
        start := i;
      } else {
        assert rest[..size] == s[i..i + size];
        i := i + size;
      }
    }
    HtmlOutputIs(stream.buf, s, start, i);
    if start < |s| {
      stream.WriteRaw(s[start..]);
    }
    stream.WriteByte(QUOTE);
  }

  lemma AsciiIsOneUnit(t: seq<byte>)
    requires t != [] && t[0] < 0x80
    ensures UnitSize(t) == 1 && t[..1] == [t[0]]
  {
  }
}

/** What the string writers write, in the terms of section 7 of RFC 8259. */
module WrittenUnits {
  import opened Bytes
  import opened StringMachines
  import opened Utf8
  import opened StringUnits
  import opened StreamStr
  import StreamHtml

  /** Lower-case digits only. */
  function LowerCode(w: nat): Unit {
    Code(w, [false, false, false, false])
  }

  /** The unit for an ASCII byte that cannot stand for itself: two of the short escapes are not used. */
  function EscapeUnit(b: byte): Unit {
    if b == 0x22 then Short(0)
    else if b == 0x5C then Short(1)
    else if b == 0x0A then Short(5)
    else if b == 0x0D then Short(6)
    else if b == 0x09 then Short(7)
    else LowerCode(b)
  }

  /** `WriteString`: quotes, backslashes and control characters are escaped, every other byte stands for itself. */
  function EscapedUnits(s: seq<byte>): seq<Unit> {
    if s == [] then []
    else [if s[0] < 0x20 || s[0] == 0x22 || s[0] == 0x5C then EscapeUnit(s[0]) else Raw(s[0])] + EscapedUnits(s[1..])
  }

  function Raws(t: seq<byte>): seq<Unit> {
    if t == [] then [] else [Raw(t[0])] + Raws(t[1..])
  }

  /**
   * One character of `WriteStringWithHTMLEscaped`: `<`, `>` and `&`, U+2028 and U+2029 are escaped too, and U+FFFD is
   * written for a byte that starts no character.
   */
  function FirstHtml(s: seq<byte>): seq<Unit>
    requires s != []
  {
    var c := DecodeRune(s).0;
    if CharLength(s) == 0 then [LowerCode(0xFFFD)]
    else if c < 0x20 || c == 0x22 || c == 0x5C || c == 0x3C || c == 0x3E || c == 0x26 then [EscapeUnit(s[0])]
    else if c == 0x2028 || c == 0x2029 then [LowerCode(c)]
    else Raws(s[..CharLength(s)])
  }

  function HtmlUnits(s: seq<byte>): seq<Unit>
    decreases |s|
  {
    if s == [] then [] else FirstHtml(s) + HtmlUnits(s[if CharLength(s) == 0 then 1 else CharLength(s)..])
  }

  // ---------- Texts of units ----------

  lemma {:induction false} UnitsAppend(a: seq<Unit>, b: seq<Unit>)
    requires AreUnits(a) && AreUnits(b)
    ensures AreUnits(a + b) && UnitsText(a + b) == UnitsText(a) + UnitsText(b)
    decreases |a|
  {
    hide UnitText;
    if a == [] {
      assert a + b == b && [] + UnitsText(b) == UnitsText(b);
    } else {
      assert (a + b)[1..] == a[1..] + b;
      UnitsAppend(a[1..], b);
    }
  }

  lemma OneUnit(u: Unit)
    requires IsUnit(u)
    ensures AreUnits([u]) && UnitsText([u]) == UnitText(u)
  {
    hide UnitText;
    assert UnitText(u) + [] == UnitText(u);
  }

  lemma {:induction false} RawsText(t: seq<byte>)
    requires forall k :: 0 <= k < |t| ==> IsPlain(t[k])
    ensures AreUnits(Raws(t)) && UnitsText(Raws(t)) == t
    decreases |t|
  {
    if t != [] {
      RawsText(t[1..]);
      UnitsCons(Raw(t[0]), Raws(t[1..]));
    }
  }

  lemma HexDigitIs(v: nat)
    requires v < 16
    ensures HexDigit(v, false) == HexChar(v)
  {
    assert v == 0 || v == 1 || v == 2 || v == 3 || v == 4 || v == 5 || v == 6 || v == 7 || v == 8 || v == 9 || v == 10
        || v == 11 || v == 12 || v == 13 || v == 14 || v == 15;
  }

  lemma EscapeText(b: byte)
    requires b < 0x80
    ensures IsUnit(EscapeUnit(b)) && UnitText(EscapeUnit(b)) == EscapeByte(b)
  {
    hide HexDigit, HexChar;
    HexDigitIs(b / 16);
    HexDigitIs(b % 16);
    HexDigitIs(0);
    ZeroChar();
  }

  lemma ZeroChar()
    ensures HexChar(0) == ZERO
  {
  }

  // ---------- The writers ----------

  lemma {:induction false} StringIsUnits(s: seq<byte>)
    ensures AreUnits(EscapedUnits(s)) && UnitsText(EscapedUnits(s)) == EscapeAll(s)
    decreases |s|
  {
    hide EscapeByte, EscapeUnit, UnitText, UnitsText;
    if s == [] {
      NoText();
    } else {
      StringIsUnits(s[1..]);
      var u := if s[0] < 0x20 || s[0] == 0x22 || s[0] == 0x5C then EscapeUnit(s[0]) else Raw(s[0]);
      if u.Raw? && IsPlain(s[0]) {
        RawUnit(s[0]);
      } else {
        EscapeText(s[0]);
      }
      UnitsCons(u, EscapedUnits(s[1..]));
    }
  }

  lemma SeparatorText(c: nat)
    requires c == 0x2028 || c == 0x2029
    ensures IsUnit(LowerCode(c)) && UnitText(LowerCode(c)) == [BACKSLASH, LOWER_U, 0x32, ZERO, 0x32, HexChar(c % 16)]
  {
    hide HexChar;
    HexDigitIs(c % 16);
    assert HexDigit(2, false) == 0x32 && HexDigit(0, false) == ZERO;
  }

  lemma ReplacementText()
    ensures IsUnit(LowerCode(0xFFFD)) && UnitText(LowerCode(0xFFFD)) == StreamHtml.REPLACEMENT_TEXT
  {
    assert HexDigit(15, false) == LOWER_F && HexDigit(13, false) == 0x64;
  }

  lemma FirstIsUnits(s: seq<byte>)
    requires s != []
    ensures AreUnits(FirstHtml(s)) && UnitsText(FirstHtml(s)) == StreamHtml.UnitText(s)
    ensures StreamHtml.UnitSize(s) == if CharLength(s) == 0 then 1 else CharLength(s)
  {
    hide EscapeByte, EscapeUnit, UnitText, UnitsText, Rune2, Rune3, Rune4, HexChar;
    var c := DecodeRune(s).0;
    if s[0] < 0x80 {
      AsciiFirst(s);
    } else if CharLength(s) == 0 {
      ReplacementText();
      OneUnit(LowerCode(0xFFFD));
    } else {
      HighFirst(s);
    }
  }

  lemma AsciiFirst(s: seq<byte>)
    requires s != [] && s[0] < 0x80
    ensures AreUnits(FirstHtml(s)) && UnitsText(FirstHtml(s)) == StreamHtml.UnitText(s)
  {
    hide EscapeByte, EscapeUnit, UnitText, UnitsText;
    EscapeText(s[0]);
    OneUnit(EscapeUnit(s[0]));
    assert s[..1] == [s[0]];
    if IsPlain(s[0]) {
      RawsText([s[0]]);
    }
  }

  lemma HighFirst(s: seq<byte>)
    requires s != [] && s[0] >= 0x80 && CharLength(s) > 0
    ensures AreUnits(FirstHtml(s)) && UnitsText(FirstHtml(s)) == StreamHtml.UnitText(s)
  {
    hide EscapeByte, EscapeUnit, UnitText, UnitsText, CharLength, Rune2, Rune3, Rune4, HexChar;
    var c, n := DecodeRune(s).0, CharLength(s);
    RuneIsHigh(s);
    StreamHtml.NonAscii(s);
    if c == 0x2028 || c == 0x2029 {
      SeparatorText(c);
      OneUnit(LowerCode(c));
    } else {
      assert forall k :: 0 <= k < n ==> s[..n][k] == s[k];
      RawsText(s[..n]);
    }
  }

  lemma RuneIsHigh(s: seq<byte>)
    requires s != [] && s[0] >= 0x80 && CharLength(s) > 0
    ensures DecodeRune(s).0 >= 0x80 && DecodeRune(s).1 == CharLength(s)
    ensures CharLength(s) == 1 ==> false
  {
  }

  lemma {:induction false} HtmlIsUnits(s: seq<byte>)
    ensures AreUnits(HtmlUnits(s)) && UnitsText(HtmlUnits(s)) == StreamHtml.EscapeHtml(s)
    decreases |s|
  {
    hide EscapeByte, EscapeUnit, UnitText, UnitsText, DecodeRune, CharLength, StreamHtml.UnitText, StreamHtml.UnitSize,
         Raws;
    if s == [] {
      NoText();
    } else {
      var rest := s[StreamHtml.UnitSize(s)..];
      FirstIsUnits(s);
      HtmlIsUnits(rest);
      UnitsAppend(FirstHtml(s), HtmlUnits(rest));
    }
  }
}

/**
 * The three string machines of the reader on a whole text: decoding, raw validation and the forward escape
 * automaton. Every position is an index into the text just past the opening quote.
 */
module StringMachines {
  import opened Bytes

  // ---------- Hexadecimal and UTF-8 ----------

  predicate IsHex(c: byte) {
    ZERO <= c <= NINE || 0x41 <= c <= 0x46 || 0x61 <= c <= 0x66
  }

  function HexValue(c: byte): (v: nat)
    requires IsHex(c)
    ensures v < 16
  {
    if c <= NINE then c - ZERO else if c <= 0x46 then c - 0x41 + 10 else c - 0x61 + 10
  }

  /** Four hexadecimal digits stand at position `i`. */
  predicate HexAt(s: seq<byte>, i: nat) {
    i + 4 <= |s| && IsHex(s[i]) && IsHex(s[i + 1]) && IsHex(s[i + 2]) && IsHex(s[i + 3])
  }

  /** The number those digits denote. */
  function U4(s: seq<byte>, i: nat): (r: nat)
    requires HexAt(s, i)
    ensures r < 0x10000
  {
    HexValue(s[i]) * 4096 + HexValue(s[i + 1]) * 256 + HexValue(s[i + 2]) * 16 + HexValue(s[i + 3])
  }

  const REPLACEMENT := 0xFFFD

  /** `utf16.IsSurrogate` */
  predicate IsSurrogate(r: int) {
    0xD800 <= r < 0xE000
  }

  predicate IsScalar(r: int) {
    0 <= r <= 0x10FFFF && !IsSurrogate(r)
  }

  /** `utf16.DecodeRune` */
  function DecodeSurrogates(r1: int, r2: int): (r: int)
    ensures IsScalar(r)
    ensures r == REPLACEMENT || 0x10000 <= r
  {
    if 0xD800 <= r1 < 0xDC00 && 0xDC00 <= r2 < 0xE000
    then (r1 - 0xD800) * 1024 + (r2 - 0xDC00) + 0x10000
    else REPLACEMENT
  }

  /** The UTF-8 form of a scalar value: section 3 of RFC 3629. */
  function EncodeScalar(r: int): (u: seq<byte>)
    requires IsScalar(r)
    ensures 1 <= |u| <= 4
  {
    if r < 0x80 then [r]
    else if r < 0x800 then [0xC0 + r / 64, 0x80 + r % 64]
    else if r < 0x10000 then EncodeThree(r)
    else EncodeFour(r)
  }

  function EncodeThree(r: int): seq<byte>
    requires 0x800 <= r < 0x10000
  {
    [0xE0 + r / 4096, 0x80 + r / 64 % 64, 0x80 + r % 64]
  }

  function EncodeFour(r: int): seq<byte>
    requires 0x10000 <= r <= 0x10FFFF
  {
    [0xF0 + r / 262144, 0x80 + r / 4096 % 64, 0x80 + r / 64 % 64, 0x80 + r % 64]
  }

  /** `strings.Builder.WriteRune`: what is no scalar value is written as U+FFFD. */
  function RuneBytes(r: int): (u: seq<byte>)
    ensures 1 <= |u| <= 4
  {
    EncodeScalar(if IsScalar(r) then r else REPLACEMENT)
  }

  // ---------- Decoding ----------

  /** The byte a two-character escape stands for. */
  function SimpleEscape(c: byte): Option<byte> {
    if c == QUOTE || c == BACKSLASH || c == SLASH then Some(c)
    else if c == LOWER_B then Some(0x08)
    else if c == LOWER_F then Some(0x0C)
    else if c == LOWER_N then Some(LINE_FEED)
    else if c == LOWER_R then Some(CARRIAGE_RETURN)
    else if c == LOWER_T then Some(TAB)
    else None
  }

  /** What a pair of `\u` escapes writes when the first is a surrogate. */
  function PairBytes(r1: int, r2: int): seq<byte> {
    var combined := DecodeSurrogates(r1, r2);
    if combined == REPLACEMENT then RuneBytes(r1) + RuneBytes(r2) else RuneBytes(combined)
  }

  /** Decodes the escape whose first character after the backslash is at `i`. */
  function Escape(s: seq<byte>, i: nat): (e: Outcome<seq<byte>>)
    ensures e.Ok? ==> i < e.next <= |s|
  {
    if i >= |s| then Bad
    else if s[i] != LOWER_U then Simple([], s, i)
    else if !HexAt(s, i + 1) then Bad
    else
      var r := U4(s, i + 1);
      if !IsSurrogate(r) then Ok(RuneBytes(r), i + 5) else AfterSurrogate(r, s, i + 5)
  }

  function Simple(before: seq<byte>, s: seq<byte>, i: nat): Outcome<seq<byte>>
    requires i < |s|
  {
    match SimpleEscape(s[i])
    case Some(b) => Ok(before + [b], i + 1)
    case None => Bad
  }

  /** What follows a surrogate decides whether it is half of a pair; the escape may end there. */
  function AfterSurrogate(r: int, s: seq<byte>, i: nat): (e: Outcome<seq<byte>>)
    ensures e.Ok? ==> i <= e.next <= |s|
  {
    if i >= |s| then Bad
    else if s[i] != BACKSLASH then Ok(RuneBytes(r), i)
    else if i + 1 >= |s| then Bad
    else if s[i + 1] != LOWER_U then Simple(RuneBytes(r), s, i + 1)
    else if !HexAt(s, i + 2) then Bad
    else Ok(PairBytes(r, U4(s, i + 2)), i + 6)
  }

  function Prepend(before: seq<byte>, o: Outcome<seq<byte>>): Outcome<seq<byte>> {
    match o
    case Ok(v, next) => Ok(before + v, next)
    case Bad => Bad
  }

  /** The string that starts at `i`, decoded, and the position past its closing quote. */
  function Decode(s: seq<byte>, i: nat): (d: Outcome<seq<byte>>)
    ensures d.Ok? ==> i < d.next <= |s| && s[d.next - 1] == QUOTE
    decreases |s| - i
  {
    if i >= |s| then Bad
    else if s[i] == QUOTE then Ok([], i + 1)
    else if s[i] == BACKSLASH then
      var e := Escape(s, i + 1);
      if e.Bad? then Bad else Prepend(e.value, Decode(s, e.next))
    else if s[i] < SPACE then Bad
    else Prepend([s[i]], Decode(s, i + 1))
  }

  // ---------- Raw validation and the escape automaton ----------

  /** The position past the closing quote of a string with valid escapes and no control characters. */
  function RawEnd(s: seq<byte>, i: nat): (end: Option<nat>)
    ensures end.Some? ==> i < end.value <= |s|
    decreases |s| - i
  {
    if i >= |s| then None
    else if s[i] == QUOTE then Some(i + 1)
    else if s[i] == BACKSLASH then
      if i + 1 >= |s| then None
      else if s[i + 1] == LOWER_U then (if HexAt(s, i + 2) then RawEnd(s, i + 6) else None)
      else if SimpleEscape(s[i + 1]).Some? then RawEnd(s, i + 2)
      else None
    else if s[i] < SPACE then None
    else RawEnd(s, i + 1)
  }

  /** The position past the first quote that a left-to-right reading finds unescaped. */
  function StringEnd(s: seq<byte>, i: nat): (end: Option<nat>)
    ensures end.Some? ==> i < end.value <= |s|
    decreases |s| - i
  {
    if i >= |s| then None
    else if s[i] == QUOTE then Some(i + 1)
    else if s[i] == BACKSLASH then StringEnd(s, i + 2)
    else StringEnd(s, i + 1)
  }

  // ---------- Behind a token ----------

  /** What `ReadString` reads at `i`: a string, or null for the empty string. */
  function StringToken(s: seq<byte>, i: nat): Outcome<seq<byte>>
    requires i <= |s|
  {
    var j := SkipWhitespace(s, i);
    if j == |s| then Bad
    else if s[j] == QUOTE then Decode(s, j + 1)
    else if s[j] == LOWER_N && At(s, j + 1, ULL) then Ok([], j + 4)
    else Bad
  }

  /** What `ReadRawString` reads at `i`: where the text starts and ends; null gives the nil string. */
  datatype RawToken = RawText(from: nat, to: nat) | RawNull(to: nat) | RawError

  function RawTokenAt(s: seq<byte>, i: nat): (t: RawToken)
    requires i <= |s|
    ensures t.RawText? ==> i < t.from < t.to <= |s|
  {
    var j := SkipWhitespace(s, i);
    if j == |s| then RawError
    else if s[j] == QUOTE then
      match RawEnd(s, j + 1)
      case Some(end) => RawText(j + 1, end)
      case None => RawError
    else if s[j] == LOWER_N && At(s, j + 1, ULL) then RawNull(j + 4)
    else RawError
  }

  // ---------- The machines agree ----------

  lemma PrependPrepend(a: seq<byte>, b: seq<byte>, o: Outcome<seq<byte>>)
    ensures Prepend(a, Prepend(b, o)) == Prepend(a + b, o)
  {
    if o.Ok? {
      assert a + (b + o.value) == (a + b) + o.value;
    }
  }

  lemma PrependNothing(o: Outcome<seq<byte>>)
    ensures Prepend([], o) == o
  {
    if o.Ok? {
      assert [] + o.value == o.value;
    }
  }

  predicate IsPlain(c: byte) {
    c != QUOTE && c != BACKSLASH && c >= SPACE
  }

  lemma {:induction false} DecodePlainRun(s: seq<byte>, i: nat, j: nat)
    requires i <= j <= |s|
    requires forall k :: i <= k < j ==> IsPlain(s[k])
    ensures Decode(s, i) == Prepend(s[i..j], Decode(s, j))
    decreases j - i
  {
    if i < j {
      DecodePlainRun(s, i + 1, j);
      PrependPrepend([s[i]], s[i + 1..j], Decode(s, j));
      assert [s[i]] + s[i + 1..j] == s[i..j];
    } else {
      assert s[i..j] == [];
      PrependNothing(Decode(s, i));
    }
  }

  /** What a run of plain bytes and the byte behind it make of a builder that holds `sb`. */
  lemma DecodeRunThen(s: seq<byte>, sb: seq<byte>, i: nat, j: nat)
    requires i <= j <= |s|
    requires forall k :: i <= k < j ==> IsPlain(s[k])
    ensures Prepend(sb, Decode(s, i)) == Prepend(sb + s[i..j], Decode(s, j))
    ensures j < |s| && s[j] == QUOTE ==> Prepend(sb, Decode(s, i)) == Ok(sb + s[i..j], j + 1)
    ensures j == |s| || s[j] < SPACE ==> Prepend(sb, Decode(s, i)) == Bad
  {
    DecodePlainRun(s, i, j);
    PrependPrepend(sb, s[i..j], Decode(s, j));
    assert sb + s[i..j] + [] == sb + s[i..j];
  }

  /** Raw validation accepts exactly the strings that decode, and ends at the same place. */
  lemma {:induction false} RawEndIffDecode(s: seq<byte>, i: nat)
    ensures RawEnd(s, i).Some? <==> Decode(s, i).Ok?
    ensures RawEnd(s, i).Some? ==> RawEnd(s, i).value == Decode(s, i).next
    decreases |s| - i
  {
    if i < |s| && s[i] == BACKSLASH && i + 1 < |s| {
      var e := Escape(s, i + 1);
      if s[i + 1] == LOWER_U && HexAt(s, i + 2) && IsSurrogate(U4(s, i + 2)) {
        AfterSurrogateRaw(s, i + 6, U4(s, i + 2));
      }
      if e.Ok? {
        RawEndIffDecode(s, e.next);
      }
    } else if i < |s| && s[i] != QUOTE && s[i] >= SPACE {
      RawEndIffDecode(s, i + 1);
    }
  }

  /** Raw validation passes over what `AfterSurrogate` consumes, and fails where it fails. */
  lemma AfterSurrogateRaw(s: seq<byte>, i: nat, r: int)
    ensures var e := AfterSurrogate(r, s, i);
      RawEnd(s, i) == if e.Ok? then RawEnd(s, e.next) else None
  {
  }

  /** A valid string ends where the escape automaton says. */
  lemma {:induction false} RawEndIsStringEnd(s: seq<byte>, i: nat)
    requires RawEnd(s, i).Some?
    ensures StringEnd(s, i) == RawEnd(s, i)
    decreases |s| - i
  {
    if s[i] == QUOTE {
    } else if s[i] == BACKSLASH {
      if s[i + 1] == LOWER_U {
        RawEndIsStringEnd(s, i + 6);
        assert StringEnd(s, i + 2) == StringEnd(s, i + 3) == StringEnd(s, i + 4)
            == StringEnd(s, i + 5) == StringEnd(s, i + 6);
      } else {
        RawEndIsStringEnd(s, i + 2);
      }
    } else {
      RawEndIsStringEnd(s, i + 1);
    }
  }

  /** A string without escapes decodes to its own bytes. */
  lemma {:induction false} DecodePlain(s: seq<byte>, i: nat)
    requires RawEnd(s, i).Some?
    requires BACKSLASH !in s[i..RawEnd(s, i).value]
    ensures Decode(s, i) == Ok(s[i..RawEnd(s, i).value - 1], RawEnd(s, i).value)
    decreases |s| - i
  {
    var end := RawEnd(s, i).value;
    assert s[i] == s[i..end][0];
    if s[i] != QUOTE {
      assert s[i..end][1..] == s[i + 1..end];
      DecodePlain(s, i + 1);
      assert s[i..end - 1] == [s[i]] + s[i + 1..end - 1];
    } else {
      assert s[i..end - 1] == [];
    }
  }

  /** Reading a string looks at nothing but the string itself. */
  lemma {:induction false} RawEndLocal(s: seq<byte>, i: nat, t: seq<byte>, j: nat)
    requires RawEnd(s, i).Some?
    requires At(t, j, s[i..RawEnd(s, i).value])
    ensures RawEnd(t, j) == Some(j + RawEnd(s, i).value - i)
    decreases |s| - i
  {
    var end := RawEnd(s, i).value;
    AtSlice(s, i, end, t, j);
    if s[i] != QUOTE {
      var step := if s[i] != BACKSLASH then 1 else if s[i + 1] == LOWER_U then 6 else 2;
      assert RawEnd(s, i + step) == Some(end);
      AtSuffix(s, i, end, t, j, i + step);
      RawEndLocal(s, i + step, t, j + step);
    }
  }

  lemma AtSlice(s: seq<byte>, i: nat, end: nat, t: seq<byte>, j: nat)
    requires i <= end <= |s| && At(t, j, s[i..end])
    ensures forall k :: i <= k < end ==> t[j + (k - i)] == s[k]
  {
    forall k | i <= k < end ensures t[j + (k - i)] == s[k] {
      AtIndex(t, j, s[i..end], k - i);
    }
  }

  lemma AtSuffix(s: seq<byte>, i: nat, end: nat, t: seq<byte>, j: nat, next: nat)
    requires i <= next <= end <= |s| && At(t, j, s[i..end])
    ensures At(t, j + (next - i), s[next..end])
  {
    assert s[i..end] == s[i..next] + s[next..end];
    AtConcat(t, j, s[i..next], s[next..end]);
  }

  lemma {:induction false} DecodeLocal(s: seq<byte>, i: nat, t: seq<byte>, j: nat)
    requires Decode(s, i).Ok?
    requires At(t, j, s[i..Decode(s, i).next])
    ensures Decode(t, j) == Ok(Decode(s, i).value, j + Decode(s, i).next - i)
    decreases |s| - i
  {
    hide Escape, At;
    var end := Decode(s, i).next;
    AtIndex(t, j, s[i..end], 0);
    if s[i] != QUOTE {
      AtSuffix(s, i, end, t, j, i + 1);
      var next := if s[i] == BACKSLASH then Escape(s, i + 1).next else i + 1;
      if s[i] == BACKSLASH {
        EscapeLocal(s, i + 1, t, j + 1, end);
      }
      AtSuffix(s, i, end, t, j, next);
      DecodeLocal(s, next, t, j + (next - i));
    }
  }

  lemma EscapeLocal(s: seq<byte>, i: nat, t: seq<byte>, j: nat, end: nat)
    requires Escape(s, i).Ok? && Escape(s, i).next < end <= |s|
    requires At(t, j, s[i..end])
    ensures Escape(t, j) == Ok(Escape(s, i).value, j + Escape(s, i).next - i)
  {
    AtSlice(s, i, end, t, j);
    assert t[j] == s[i];
    if s[i] == LOWER_U {
      HexLocal(s, i + 1, t, j + 1);
      var r := U4(s, i + 1);
      if IsSurrogate(r) {
        assert t[j + 5] == s[i + 5];
        if s[i + 5] == BACKSLASH {
          assert t[j + 6] == s[i + 6];
          if s[i + 6] == LOWER_U {
            HexLocal(s, i + 7, t, j + 7);
          }
        }
      }
    }
  }

  lemma HexLocal(s: seq<byte>, i: nat, t: seq<byte>, j: nat)
    requires HexAt(s, i) && j + 4 <= |t|
    requires forall k :: i <= k < i + 4 ==> t[j + (k - i)] == s[k]
    ensures HexAt(t, j) && U4(t, j) == U4(s, i)
  {
    assert t[j] == s[i] && t[j + 1] == s[i + 1] && t[j + 2] == s[i + 2] && t[j + 3] == s[i + 3];
  }
}

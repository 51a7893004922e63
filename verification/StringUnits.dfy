/** Strings as section 7 of RFC 8259 has them: what may stand between the quotes, and what it stands for. */
module StringUnits {
  import opened Bytes
  import opened StringMachines
  import opened Escapes

  // ---------- The standard ----------

  // The characters of the two-character escapes, and what they stand for, in one order
  const SHORT_NAMES: seq<byte> := [0x22, 0x5C, 0x2F, 0x62, 0x66, 0x6E, 0x72, 0x74]
  const SHORT_BYTES: seq<byte> := [0x22, 0x5C, 0x2F, 0x08, 0x0C, 0x0A, 0x0D, 0x09]

  // The hexadecimal digits from 0 to 15
  const LOWER_HEX: seq<byte> :=
    [0x30, 0x31, 0x32, 0x33, 0x34, 0x35, 0x36, 0x37, 0x38, 0x39, 0x61, 0x62, 0x63, 0x64, 0x65, 0x66]
  const UPPER_HEX: seq<byte> :=
    [0x30, 0x31, 0x32, 0x33, 0x34, 0x35, 0x36, 0x37, 0x38, 0x39, 0x41, 0x42, 0x43, 0x44, 0x45, 0x46]

  /** A byte for itself; the `k`-th two-character escape; or a code unit in four digits, each in either case. */
  datatype Unit = Raw(c: byte) | Short(k: nat) | Code(w: nat, upper: seq<bool>)

  predicate IsUnit(u: Unit) {
    match u
    case Raw(c) => c >= 0x20 && c != 0x22 && c != 0x5C
    case Short(k) => k < 8
    case Code(w, upper) => w < 0x1_0000 && |upper| == 4
  }

  predicate AreUnits(us: seq<Unit>) {
    forall k :: 0 <= k < |us| ==> IsUnit(us[k])
  }

  function HexDigit(v: nat, upper: bool): byte
    requires v < 16
  {
    if upper then UPPER_HEX[v] else LOWER_HEX[v]
  }

  function UnitText(u: Unit): (t: seq<byte>)
    requires IsUnit(u)
  {
    match u
    case Raw(c) => [c]
    case Short(k) => [0x5C, SHORT_NAMES[k]]
    case Code(w, upper) =>
      [0x5C, 0x75, HexDigit(w / 0x1000, upper[0]), HexDigit(w / 0x100 % 0x10, upper[1]),
       HexDigit(w / 0x10 % 0x10, upper[2]), HexDigit(w % 0x10, upper[3])]
  }

  function UnitsText(us: seq<Unit>): seq<byte>
    requires AreUnits(us)
  {
    if us == [] then [] else UnitText(us[0]) + UnitsText(us[1..])
  }

  /** The high surrogate `a` and the low surrogate `b`. */
  predicate ArePair(a: Unit, b: Unit) {
    a.Code? && b.Code? && 0xD800 <= a.w < 0xDC00 && 0xDC00 <= b.w < 0xE000
  }

  predicate IsHalf(u: Unit) {
    u.Code? && 0xD800 <= u.w < 0xE000
  }

  /** What a unit stands for outside a pair; a surrogate stands for U+FFFD. */
  function Alone(u: Unit): seq<byte>
    requires IsUnit(u)
  {
    match u
    case Raw(c) => [c]
    case Short(k) => [SHORT_BYTES[k]]
    case Code(w, _) => EncodeScalar(if IsHalf(u) then 0xFFFD else w)
  }

  /** The string they stand for, in UTF-8. */
  function Meaning(us: seq<Unit>): seq<byte>
    requires AreUnits(us)
    decreases |us|
  {
    if us == [] then []
    else if |us| > 1 && ArePair(us[0], us[1]) then
      EncodeScalar(0x1_0000 + (us[0].w - 0xD800) * 0x400 + (us[1].w - 0xDC00)) + Meaning(us[2..])
    else Alone(us[0]) + Meaning(us[1..])
  }

  /**
   * Read from the left, with an unpaired surrogate taking the code unit behind it along, some pair is torn apart.
   */
  predicate TearsPair(us: seq<Unit>)
    decreases |us|
  {
    if us == [] then false
    else if IsHalf(us[0]) && |us| > 1 && us[1].Code? then
      || (!ArePair(us[0], us[1]) && |us| > 2 && ArePair(us[1], us[2]))
      || TearsPair(us[2..])
    else TearsPair(us[1..])
  }

  // ---------- One unit ----------

  lemma ShortIs(k: nat)
    requires k < 8
    ensures SimpleEscape(SHORT_NAMES[k]) == Some(SHORT_BYTES[k]) && SHORT_NAMES[k] != LOWER_U
  {
    assert k == 0 || k == 1 || k == 2 || k == 3 || k == 4 || k == 5 || k == 6 || k == 7;
  }

  lemma SomeShort(c: byte) returns (k: nat)
    requires SimpleEscape(c).Some?
    ensures k < 8 && SHORT_NAMES[k] == c
  {
    k := if c == 0x22 then 0 else if c == 0x5C then 1 else if c == 0x2F then 2 else if c == 0x62 then 3
         else if c == 0x66 then 4 else if c == 0x6E then 5 else if c == 0x72 then 6 else 7;
  }

  lemma DigitIs(v: nat, upper: bool)
    requires v < 16
    ensures IsHex(HexDigit(v, upper)) && HexValue(HexDigit(v, upper)) == v
  {
    assert v == 0 || v == 1 || v == 2 || v == 3 || v == 4 || v == 5 || v == 6 || v == 7 || v == 8 || v == 9 || v == 10
        || v == 11 || v == 12 || v == 13 || v == 14 || v == 15;
  }

  lemma SomeDigit(c: byte) returns (upper: bool)
    requires IsHex(c)
    ensures HexDigit(HexValue(c), upper) == c
  {
    upper := c < 0x61;
    var v := HexValue(c);
    assert v == 0 || v == 1 || v == 2 || v == 3 || v == 4 || v == 5 || v == 6 || v == 7 || v == 8 || v == 9 || v == 10
        || v == 11 || v == 12 || v == 13 || v == 14 || v == 15;
  }

  /** A number below 0x10000 and its four digits. */
  lemma DigitsOf(w: nat)
    requires w < 0x1_0000
    ensures w / 0x1000 < 16 && w == w / 0x1000 * 4096 + w / 0x100 % 0x10 * 256 + w / 0x10 % 0x10 * 16 + w % 0x10
  {
    assert w / 0x100 == w / 0x1000 * 0x10 + w / 0x100 % 0x10;
    assert w / 0x10 == w / 0x100 * 0x10 + w / 0x10 % 0x10;
  }

  lemma DigitsAre(a: nat, b: nat, c: nat, d: nat)
    requires a < 16 && b < 16 && c < 16 && d < 16
    ensures var w := a * 4096 + b * 256 + c * 16 + d;
      w < 0x1_0000 && a == w / 0x1000 && b == w / 0x100 % 0x10 && c == w / 0x10 % 0x10 && d == w % 0x10
  {
    var w := a * 4096 + b * 256 + c * 16 + d;
    assert w / 0x10 == a * 256 + b * 16 + c && w / 0x100 == a * 16 + b && w / 0x1000 == a;
  }

  /** What stands in the text where a unit begins. */
  predicate StandsFor(u: Unit, t: seq<byte>, j: nat)
    requires IsUnit(u)
  {
    match u
    case Raw(c) => j < |t| && t[j] == c && IsPlain(c)
    case Short(k) =>
      j + 2 <= |t| && t[j] == BACKSLASH && t[j + 1] != LOWER_U && SimpleEscape(t[j + 1]) == Some(SHORT_BYTES[k])
    case Code(w, _) => EscapedUnit(t, j) && U4(t, j + 2) == w
  }

  lemma UnitThere(u: Unit, t: seq<byte>, j: nat)
    requires IsUnit(u) && At(t, j, UnitText(u))
    ensures StandsFor(u, t, j) && |UnitText(u)| == (if u.Raw? then 1 else if u.Short? then 2 else 6)
  {
    hide At, SimpleEscape, HexDigit, HexValue, SHORT_BYTES, SHORT_NAMES, IsHex;
    var x := UnitText(u);
    AtIndex(t, j, x, 0);
    forall k | 0 <= k < |x| ensures t[j + k] == x[k] {
      AtIndex(t, j, x, k);
    }
    match u {
      case Raw(_) =>
      case Short(k) =>
        ShortIs(k);
        assert t[j + 1] == x[1];
      case Code(w, upper) =>
        DigitIs(w / 0x1000, upper[0]);
        DigitIs(w / 0x100 % 0x10, upper[1]);
        DigitIs(w / 0x10 % 0x10, upper[2]);
        DigitIs(w % 0x10, upper[3]);
        DigitsOf(w);
        assert t[j + 1] == x[1] && t[j + 2] == x[2] && t[j + 3] == x[3] && t[j + 4] == x[4] && t[j + 5] == x[5];
    }
  }

  /** The first unit of a text that ends with a quote, and the rest. */
  lemma FirstUnit(us: seq<Unit>, t: seq<byte>, j: nat)
    requires AreUnits(us) && us != [] && At(t, j, UnitsText(us) + [QUOTE])
    ensures StandsFor(us[0], t, j)
    ensures var n := if us[0].Raw? then 1 else if us[0].Short? then 2 else 6;
      && AreUnits(us[1..]) && At(t, j + n, UnitsText(us[1..]) + [QUOTE]) && |UnitsText(us)| == n + |UnitsText(us[1..])|
  {
    hide At, UnitText, StandsFor;
    assert UnitsText(us) + [QUOTE] == UnitText(us[0]) + (UnitsText(us[1..]) + [QUOTE]);
    AtConcat(t, j, UnitText(us[0]), UnitsText(us[1..]) + [QUOTE]);
    UnitThere(us[0], t, j);
  }

  /** A code unit begins a text exactly if it is its first unit. */
  lemma CodeFirst(us: seq<Unit>, t: seq<byte>, j: nat)
    requires AreUnits(us) && At(t, j, UnitsText(us) + [QUOTE])
    ensures EscapedUnit(t, j) <==> us != [] && us[0].Code?
    ensures EscapedUnit(t, j) ==> U4(t, j + 2) == us[0].w
    ensures us == [] ==> j < |t| && t[j] == QUOTE
  {
    hide At, HexAt, U4, UnitText, SimpleEscape;
    if us == [] {
      assert UnitsText(us) + [QUOTE] == [QUOTE];
      AtIndex(t, j, [QUOTE], 0);
    } else {
      FirstUnit(us, t, j);
    }
  }

  // ---------- The standard decoding ----------

  /** `StandardDecode` is the meaning that section 7 gives to a text. */
  lemma {:induction false} UnitsDecode(us: seq<Unit>, t: seq<byte>, j: nat)
    requires AreUnits(us) && At(t, j, UnitsText(us) + [QUOTE])
    ensures StandardDecode(t, j) == Ok(Meaning(us), j + |UnitsText(us)| + 1)
    decreases |us|
  {
    hide At, HexAt, U4, UnitsText, EncodeScalar, SimpleEscape, DecodeSurrogates, StandardDecode, Alone;
    CodeFirst(us, t, j);
    if us == [] {
      NoText();
      QuoteDecodes(t, j);
    } else {
      var n := if us[0].Raw? then 1 else if us[0].Short? then 2 else 6;
      FirstUnit(us, t, j);
      CodeFirst(us[1..], t, j + n);
      if |us| > 1 && ArePair(us[0], us[1]) {
        FirstUnit(us[1..], t, j + 6);
        assert us[1..][1..] == us[2..];
        UnitsDecode(us[2..], t, j + 12);
        TwoUnitsDecode(us[0], us[1], t, j);
      } else {
        UnitsDecode(us[1..], t, j + n);
        OneUnitDecodes(us[0], t, j);
      }
    }
  }

  lemma TwoUnitsDecode(a: Unit, b: Unit, t: seq<byte>, j: nat)
    requires IsUnit(a) && IsUnit(b) && ArePair(a, b) && StandsFor(a, t, j) && StandsFor(b, t, j + 6)
    ensures StandardDecode(t, j) ==
            Prepend(EncodeScalar(0x1_0000 + (a.w - 0xD800) * 0x400 + (b.w - 0xDC00)), StandardDecode(t, j + 12))
  {
    hide HexAt, U4, EncodeScalar;
    PairDecodes(a.w, b.w);
  }

  lemma OneUnitDecodes(u: Unit, t: seq<byte>, j: nat)
    requires IsUnit(u) && StandsFor(u, t, j) && !PairAt(t, j)
    ensures StandardDecode(t, j) ==
            Prepend(Alone(u), StandardDecode(t, j + if u.Raw? then 1 else if u.Short? then 2 else 6))
  {
    hide HexAt, U4, EncodeScalar, SimpleEscape;
    if u.Short? {
      assert [] + [SHORT_BYTES[u.k]] == [SHORT_BYTES[u.k]];
    }
  }

  lemma QuoteDecodes(t: seq<byte>, j: nat)
    requires j < |t| && t[j] == QUOTE
    ensures StandardDecode(t, j) == Ok([], j + 1)
  {
  }

  lemma NoText()
    ensures UnitsText([]) == []
  {
  }

  lemma PairDecodes(a: nat, b: nat)
    requires 0xD800 <= a < 0xDC00 && 0xDC00 <= b < 0xE000
    ensures DecodeSurrogates(a, b) == 0x1_0000 + (a - 0xD800) * 0x400 + (b - 0xDC00)
    ensures RuneBytes(DecodeSurrogates(a, b)) == EncodeScalar(DecodeSurrogates(a, b))
  {
  }

  // ---------- The reader ----------

  /** The reader tears a pair apart exactly where the units say so. */
  lemma {:induction false} TearsIffSplits(us: seq<Unit>, t: seq<byte>, j: nat)
    requires AreUnits(us) && At(t, j, UnitsText(us) + [QUOTE])
    ensures SplitsPair(t, j) <==> TearsPair(us)
    decreases |us|
  {
    hide At, HexAt, U4, UnitsText, EncodeScalar, SimpleEscape, DecodeSurrogates;
    CodeFirst(us, t, j);
    if us != [] {
      var n := if us[0].Raw? then 1 else if us[0].Short? then 2 else 6;
      FirstUnit(us, t, j);
      CodeFirst(us[1..], t, j + n);
      if IsHalf(us[0]) && |us| > 1 && us[1].Code? {
        FirstUnit(us[1..], t, j + 6);
        assert us[1..][1..] == us[2..];
        CodeFirst(us[2..], t, j + 12);
        TearsIffSplits(us[2..], t, j + 12);
      } else {
        TearsIffSplits(us[1..], t, j + n);
      }
    }
  }

  /**
   * Every string of section 7 of RFC 8259 is read to its closing quote, and as what it stands for exactly if no
   * pair of surrogates is torn apart.
   */
  lemma ReadsAsMeant(us: seq<Unit>, t: seq<byte>, j: nat)
    requires AreUnits(us) && At(t, j, UnitsText(us) + [QUOTE])
    ensures Decode(t, j).Ok? && Decode(t, j).next == j + |UnitsText(us)| + 1
    ensures Decode(t, j).value == Meaning(us) <==> !TearsPair(us)
  {
    hide Decode, StandardDecode, RawEnd, At, UnitsText, Meaning;
    UnitsDecode(us, t, j);
    TearsIffSplits(us, t, j);
    StandardIffRaw(t, j);
    RawEndIffDecode(t, j);
    StandardIffNoSplit(t, j);
  }

  // ---------- Nothing else is read ----------

  lemma UnitStands(u: Unit, t: seq<byte>, j: nat)
    requires IsUnit(u) && j + |UnitText(u)| <= |t|
    requires forall k :: 0 <= k < |UnitText(u)| ==> t[j + k] == UnitText(u)[k]
    ensures At(t, j, UnitText(u))
  {
  }

  /** Four hexadecimal digits behind `\u`. */
  lemma SomeCode(t: seq<byte>, j: nat) returns (u: Unit)
    requires EscapedUnit(t, j)
    ensures IsUnit(u) && u.Code? && |UnitText(u)| == 6 && At(t, j, UnitText(u))
  {
    hide HexDigit, HexValue, IsHex, At;
    var a := SomeDigit(t[j + 2]);
    var b := SomeDigit(t[j + 3]);
    var c := SomeDigit(t[j + 4]);
    var d := SomeDigit(t[j + 5]);
    u := Code(U4(t, j + 2), [a, b, c, d]);
    DigitsAre(HexValue(t[j + 2]), HexValue(t[j + 3]), HexValue(t[j + 4]), HexValue(t[j + 5]));
    assert t[j + 0] == t[j];
    UnitStands(u, t, j);
  }

  /** Every string that is read is one of section 7: its units. */
  lemma {:induction false} SomeUnits(t: seq<byte>, j: nat) returns (us: seq<Unit>)
    requires RawEnd(t, j).Some?
    ensures AreUnits(us) && At(t, j, UnitsText(us) + [QUOTE]) && RawEnd(t, j).value == j + |UnitsText(us)| + 1
    decreases |t| - j
  {
    hide HexAt, At, UnitText, UnitsText, SHORT_NAMES;
    if t[j] == QUOTE {
      us := [];
      NoText();
      AtByte(t, j, QUOTE);
      assert UnitsText(us) + [QUOTE] == [QUOTE];
    } else {
      var u;
      if t[j] != BACKSLASH {
        u := Raw(t[j]);
        AtByte(t, j, t[j]);
        RawUnit(u.c);
      } else if t[j + 1] == LOWER_U {
        u := SomeCode(t, j);
      } else {
        var k := SomeShort(t[j + 1]);
        u := Short(k);
        ShortText(k, t, j);
      }
      var rest := SomeUnits(t, j + |UnitText(u)|);
      us := [u] + rest;
      UnitsCons(u, rest);
      AtConcat(t, j, UnitText(u), UnitsText(rest) + [QUOTE]);
    }
  }

  lemma RawUnit(c: byte)
    requires IsPlain(c)
    ensures IsUnit(Raw(c)) && UnitText(Raw(c)) == [c]
  {
  }

  lemma ShortText(k: nat, t: seq<byte>, j: nat)
    requires k < 8 && j + 2 <= |t| && t[j] == BACKSLASH && t[j + 1] == SHORT_NAMES[k]
    ensures |UnitText(Short(k))| == 2 && At(t, j, UnitText(Short(k)))
  {
    hide SHORT_NAMES;
    assert t[j + 0] == t[j];
    UnitStands(Short(k), t, j);
  }

  lemma UnitsCons(u: Unit, rest: seq<Unit>)
    requires IsUnit(u) && AreUnits(rest)
    ensures AreUnits([u] + rest) && UnitsText([u] + rest) == UnitText(u) + UnitsText(rest)
    ensures UnitsText([u] + rest) + [QUOTE] == UnitText(u) + (UnitsText(rest) + [QUOTE])
  {
    hide UnitText;
    assert ([u] + rest)[1..] == rest;
  }
}

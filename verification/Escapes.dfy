/** What escape decoding means: `\u` escapes as UTF-16 code units, and UTF-8 in, UTF-8 out. */
module Escapes {
  import opened Bytes
  import opened StringMachines
  import opened Utf8

  // ---------- Code units written as \u escapes ----------

  type CodeUnit = w: int | 0 <= w < 0x10000

  /** Four hexadecimal digits, in either case each, that denote `w`. */
  predicate IsHexOf(h: seq<byte>, w: int) {
    |h| == 4 && HexAt(h, 0) && U4(h, 0) == w
  }

  predicate AreHexOf(hs: seq<seq<byte>>, ws: seq<CodeUnit>) {
    |hs| == |ws| && forall k :: 0 <= k < |hs| ==> IsHexOf(hs[k], ws[k])
  }

  /** `\u` before each group of digits. */
  function EscapeText(hs: seq<seq<byte>>): seq<byte> {
    if hs == [] then [] else [BACKSLASH, LOWER_U] + hs[0] + EscapeText(hs[1..])
  }

  function EncodeRunes(rs: seq<int>): seq<byte> {
    if rs == [] then [] else RuneBytes(rs[0]) + EncodeRunes(rs[1..])
  }

  function OrReplacement(r: int): int {
    if IsScalar(r) then r else REPLACEMENT
  }

  /** The runes the reader makes of a sequence of escaped code units. */
  function ReaderRunes(ws: seq<CodeUnit>): seq<int> {
    if ws == [] then []
    else if !IsSurrogate(ws[0]) then [ws[0]] + ReaderRunes(ws[1..])
    else if |ws| == 1 then [REPLACEMENT]
    else if IsPair(ws[0], ws[1]) then [DecodeSurrogates(ws[0], ws[1])] + ReaderRunes(ws[2..])
    else [REPLACEMENT, OrReplacement(ws[1])] + ReaderRunes(ws[2..])
  }

  predicate IsPair(w1: int, w2: int) {
    0xD800 <= w1 < 0xDC00 && 0xDC00 <= w2 < 0xE000
  }

  // ---------- The reader on such a text ----------

  lemma EscapeTextSplit(hs: seq<seq<byte>>, t: seq<byte>, j: nat, rest: seq<byte>)
    requires hs != [] && |hs[0]| == 4
    requires At(t, j, EscapeText(hs) + rest)
    ensures j + 6 <= |t| && t[j] == BACKSLASH && t[j + 1] == LOWER_U
    ensures forall k :: 0 <= k < 4 ==> t[j + 2 + k] == hs[0][k]
    ensures At(t, j + 6, EscapeText(hs[1..]) + rest)
  {
    var first := [BACKSLASH, LOWER_U] + hs[0];
    assert EscapeText(hs) + rest == first + (EscapeText(hs[1..]) + rest);
    AtConcat(t, j, first, EscapeText(hs[1..]) + rest);
    forall k | 0 <= k < 6 ensures t[j + k] == first[k] {
      AtIndex(t, j, first, k);
    }
    forall k | 0 <= k < 4 ensures t[j + 2 + k] == hs[0][k] {
      assert t[j + (2 + k)] == first[2 + k];
    }
  }

  lemma HexThere(h: seq<byte>, w: int, t: seq<byte>, i: nat)
    requires IsHexOf(h, w) && i + 4 <= |t| && forall k :: 0 <= k < 4 ==> t[i + k] == h[k]
    ensures HexAt(t, i) && U4(t, i) == w
  {
    assert t[i] == t[i + 0];
  }

  /** A string of `\u` escapes decodes to the UTF-8 form of the reader's runes, wherever it stands. */
  lemma {:induction false} DecodeEscapeText(hs: seq<seq<byte>>, ws: seq<CodeUnit>, t: seq<byte>, j: nat)
    requires AreHexOf(hs, ws)
    requires At(t, j, EscapeText(hs) + [QUOTE])
    ensures Decode(t, j) == Ok(EncodeRunes(ReaderRunes(ws)), j + 6 * |ws| + 1)
    decreases |ws|
  {
    hide At, HexAt, U4, DecodeSurrogates, RuneBytes, Escape, EncodeRunes, Decode, PairBytes;
    if ws == [] {
      assert EscapeText(hs) + [QUOTE] == [QUOTE];
      AtIndex(t, j, [QUOTE], 0);
      DecodeQuote(t, j);
      EncodeNothing();
    } else {
      EscapeTextSplit(hs, t, j, [QUOTE]);
      HexThere(hs[0], ws[0], t, j + 2);
      if !IsSurrogate(ws[0]) || |ws| == 1 {
        OneEscape(hs[1..], ws[0], t, j);
        DecodeEscapeText(hs[1..], ws[1..], t, j + 6);
        DecodeBehindEscape(t, j);
        assert ReaderRunes(ws) == [OrReplacement(ws[0])] + ReaderRunes(ws[1..]);
        EncodeRunesCons(OrReplacement(ws[0]), ReaderRunes(ws[1..]));
      } else {
        EscapeTextSplit(hs[1..], t, j + 6, [QUOTE]);
        HexThere(hs[1], ws[1], t, j + 8);
        assert hs[1..][1..] == hs[2..];
        DecodeEscapeText(hs[2..], ws[2..], t, j + 12);
        TwoEscapes(t, j, ws[0], ws[1]);
        DecodeBehindEscape(t, j);
        PairRunes(ws[0], ws[1], ReaderRunes(ws[2..]));
      }
    }
  }

  lemma DecodeQuote(t: seq<byte>, j: nat)
    requires j < |t| && t[j] == QUOTE
    ensures Decode(t, j) == Ok([], j + 1)
  {
  }

  lemma DecodeBehindEscape(t: seq<byte>, j: nat)
    requires j < |t| && t[j] == BACKSLASH && Escape(t, j + 1).Ok?
    ensures Decode(t, j) == Prepend(Escape(t, j + 1).value, Decode(t, Escape(t, j + 1).next))
  {
  }

  lemma EncodeNothing()
    ensures EncodeRunes([]) == []
  {
  }

  lemma EncodeRunesCons(r: int, rest: seq<int>)
    ensures EncodeRunes([r] + rest) == RuneBytes(r) + EncodeRunes(rest)
  {
    assert ([r] + rest)[1..] == rest;
  }

  /** An escape that is no surrogate, or is the last of its string. */
  lemma OneEscape(more: seq<seq<byte>>, w: CodeUnit, t: seq<byte>, j: nat)
    requires j + 6 <= |t| && t[j] == BACKSLASH && t[j + 1] == LOWER_U && HexAt(t, j + 2) && U4(t, j + 2) == w
    requires At(t, j + 6, EscapeText(more) + [QUOTE])
    requires !IsSurrogate(w) || more == []
    ensures Escape(t, j + 1) == Ok(RuneBytes(OrReplacement(w)), j + 6)
  {
    hide HexAt, U4;
    if IsSurrogate(w) {
      assert EscapeText(more) + [QUOTE] == [QUOTE];
      AtIndex(t, j + 6, [QUOTE], 0);
    }
  }

  lemma TwoEscapes(t: seq<byte>, j: nat, w1: CodeUnit, w2: CodeUnit)
    requires j + 12 <= |t| && t[j + 1] == LOWER_U && HexAt(t, j + 2) && U4(t, j + 2) == w1
    requires t[j + 6] == BACKSLASH && t[j + 7] == LOWER_U && HexAt(t, j + 8) && U4(t, j + 8) == w2
    requires IsSurrogate(w1)
    ensures Escape(t, j + 1) == Ok(PairBytes(w1, w2), j + 12)
  {
    hide HexAt, U4;
  }

  /** What a surrogate and the code unit behind it write. */
  lemma PairRunes(w1: CodeUnit, w2: CodeUnit, rest: seq<int>)
    requires IsSurrogate(w1)
    ensures var runes := if IsPair(w1, w2) then [DecodeSurrogates(w1, w2)] else [REPLACEMENT, OrReplacement(w2)];
      PairBytes(w1, w2) + EncodeRunes(rest) == EncodeRunes(runes + rest)
  {
    if IsPair(w1, w2) {
      var rs := [DecodeSurrogates(w1, w2)] + rest;
      assert rs[1..] == rest;
    } else {
      var rs := [REPLACEMENT, OrReplacement(w2)] + rest;
      assert rs[1..] == [OrReplacement(w2)] + rest && rs[1..][1..] == rest;
      assert RuneBytes(w1) == RuneBytes(REPLACEMENT) && RuneBytes(w2) == RuneBytes(OrReplacement(w2));
    }
  }

  // ---------- Scalar values ----------

  /** The UTF-16 form of a scalar value. */
  function UnitsOf(r: int): seq<CodeUnit>
    requires IsScalar(r)
  {
    if r < 0x10000 then [r] else [0xD800 + (r - 0x10000) / 1024, 0xDC00 + (r - 0x10000) % 1024]
  }

  function AllUnits(rs: seq<int>): seq<CodeUnit>
    requires forall r :: r in rs ==> IsScalar(r)
  {
    if rs == [] then [] else UnitsOf(rs[0]) + AllUnits(rs[1..])
  }

  lemma UnitsAreRead(r: int)
    requires IsScalar(r)
    ensures var us := UnitsOf(r);
      if |us| == 1 then us[0] == r && !IsSurrogate(r)
      else |us| == 2 && IsSurrogate(us[0]) && IsPair(us[0], us[1]) && DecodeSurrogates(us[0], us[1]) == r
  {
  }

  lemma {:induction false} ReaderRunesOfScalars(rs: seq<int>)
    requires forall r :: r in rs ==> IsScalar(r)
    ensures ReaderRunes(AllUnits(rs)) == rs
    decreases |rs|
  {
    hide UnitsOf, DecodeSurrogates, IsPair;
    if rs != [] {
      var us, rest := UnitsOf(rs[0]), AllUnits(rs[1..]);
      ReaderRunesOfScalars(rs[1..]);
      UnitsAreRead(rs[0]);
      assert (us + rest)[|us|..] == rest;
      assert rs == [rs[0]] + rs[1..];
    }
  }

  /**
   * Every sequence of Unicode scalar values, written as `\u` escapes with surrogate pairs above U+FFFF and
   * digits in either case, decodes to its UTF-8 encoding.
   */
  lemma EscapedScalarsDecode(rs: seq<int>, hs: seq<seq<byte>>, t: seq<byte>, j: nat)
    requires forall r :: r in rs ==> IsScalar(r)
    requires AreHexOf(hs, AllUnits(rs))
    requires At(t, j, EscapeText(hs) + [QUOTE])
    ensures Decode(t, j) == Ok(EncodeRunes(rs), j + |EscapeText(hs)| + 1)
  {
    hide At, AreHexOf, Decode;
    DecodeEscapeText(hs, AllUnits(rs), t, j);
    ReaderRunesOfScalars(rs);
    assert AreHexOf(hs, AllUnits(rs));
    EscapeTextLength(hs, AllUnits(rs));
  }

  lemma {:induction false} EscapeTextLength(hs: seq<seq<byte>>, ws: seq<CodeUnit>)
    requires AreHexOf(hs, ws)
    ensures |EscapeText(hs)| == 6 * |ws|
    decreases |hs|
  {
    if hs != [] {
      EscapeTextLength(hs[1..], ws[1..]);
    }
  }

  // ---------- Standard decoding ----------

  /** A `\u` escape whose backslash is at `i`. */
  predicate EscapedUnit(s: seq<byte>, i: nat) {
    i + 6 <= |s| && s[i] == BACKSLASH && s[i + 1] == LOWER_U && HexAt(s, i + 2)
  }

  /** Two of them that are a surrogate pair. */
  predicate PairAt(s: seq<byte>, i: nat) {
    EscapedUnit(s, i) && EscapedUnit(s, i + 6) && IsPair(U4(s, i + 2), U4(s, i + 8))
  }

  /** UTF-16 decoding of the escape whose backslash is at `i`: a surrogate outside a pair is U+FFFD by itself. */
  function StandardEscape(s: seq<byte>, i: nat): (e: Outcome<seq<byte>>)
    ensures e.Ok? ==> i < e.next <= |s|
  {
    if EscapedUnit(s, i) && IsSurrogate(U4(s, i + 2)) then
      if PairAt(s, i) then Ok(RuneBytes(DecodeSurrogates(U4(s, i + 2), U4(s, i + 8))), i + 12)
      else Ok(RuneBytes(REPLACEMENT), i + 6)
    else Escape(s, i + 1)
  }

  /** `Decode` with that reading of surrogates. */
  function StandardDecode(s: seq<byte>, i: nat): (d: Outcome<seq<byte>>)
    ensures d.Ok? ==> i < d.next <= |s|
    decreases |s| - i
  {
    if i >= |s| then Bad
    else if s[i] == QUOTE then Ok([], i + 1)
    else if s[i] == BACKSLASH then
      var e := StandardEscape(s, i);
      if e.Bad? then Bad else Prepend(e.value, StandardDecode(s, e.next))
    else if s[i] < SPACE then Bad
    else Prepend([s[i]], StandardDecode(s, i + 1))
  }

  /** An unpaired surrogate with another `\u` escape behind it, which the reader takes along. */
  predicate TakesAlong(s: seq<byte>, i: nat) {
    EscapedUnit(s, i) && IsSurrogate(U4(s, i + 2)) && EscapedUnit(s, i + 6) && !PairAt(s, i)
  }

  /** The reader, on its way from `i` to the end of the string, takes the first half of a pair along. */
  predicate SplitsPair(s: seq<byte>, i: nat)
    decreases |s| - i
  {
    if i >= |s| || s[i] == QUOTE then false
    else if TakesAlong(s, i) then PairAt(s, i + 6) || SplitsPair(s, i + 12)
    else if s[i] == BACKSLASH then Escape(s, i + 1).Ok? && SplitsPair(s, Escape(s, i + 1).next)
    else SplitsPair(s, i + 1)
  }

  /** Both decodings accept the same strings and end at the same place. */
  lemma {:induction false} StandardIffRaw(s: seq<byte>, i: nat)
    ensures StandardDecode(s, i).Ok? <==> RawEnd(s, i).Some?
    ensures StandardDecode(s, i).Ok? ==> StandardDecode(s, i).next == RawEnd(s, i).value
    decreases |s| - i
  {
    hide RuneBytes, DecodeSurrogates, HexAt, U4;
    if i < |s| && s[i] == BACKSLASH {
      var e := StandardEscape(s, i);
      if e.Ok? {
        StandardIffRaw(s, e.next);
      }
    } else if i < |s| && s[i] != QUOTE && s[i] >= SPACE {
      StandardIffRaw(s, i + 1);
    }
  }

  lemma PrependSame(a: seq<byte>, x: Outcome<seq<byte>>, y: Outcome<seq<byte>>)
    ensures Prepend(a, x) == Prepend(a, y) <==> x == y
  {
    if x.Ok? && y.Ok? && a + x.value == a + y.value {
      assert x.value == (a + x.value)[|a|..] == (a + y.value)[|a|..] == y.value;
    }
  }

  /** What either decoding makes of a surrogate that takes an escape along. */
  lemma AlongDecodes(s: seq<byte>, i: nat)
    requires TakesAlong(s, i)
    ensures Decode(s, i) == Prepend(RuneBytes(REPLACEMENT), Prepend(RuneBytes(U4(s, i + 8)), Decode(s, i + 12)))
    ensures StandardDecode(s, i) == Prepend(RuneBytes(REPLACEMENT), StandardDecode(s, i + 6))
    ensures !PairAt(s, i + 6) ==>
              StandardDecode(s, i + 6) == Prepend(RuneBytes(U4(s, i + 8)), StandardDecode(s, i + 12))
    ensures PairAt(s, i + 6) ==>
              StandardDecode(s, i + 6) ==
              Prepend(RuneBytes(DecodeSurrogates(U4(s, i + 8), U4(s, i + 14))), StandardDecode(s, i + 18))
  {
    hide HexAt, U4, EncodeScalar;
    var r1, r2 := U4(s, i + 2), U4(s, i + 8);
    assert Escape(s, i + 1) == Ok(RuneBytes(REPLACEMENT) + RuneBytes(r2), i + 12);
    PrependPrepend(RuneBytes(REPLACEMENT), RuneBytes(r2), Decode(s, i + 12));
    assert RuneBytes(r1) == RuneBytes(REPLACEMENT);
  }

  /** The bytes of a pair are not those of U+FFFD. */
  lemma PairIsNoReplacement(r: int, x: seq<byte>, y: seq<byte>)
    requires 0x10000 <= r <= 0x10FFFF
    ensures RuneBytes(r) + x != RuneBytes(REPLACEMENT) + y
  {
    assert (RuneBytes(r) + x)[0] >= 0xF0 && (RuneBytes(REPLACEMENT) + y)[0] == 0xEF;
  }

  /** A pair that is split: the reader has written U+FFFD for its first half. */
  lemma SplitDiffers(s: seq<byte>, i: nat)
    requires TakesAlong(s, i) && PairAt(s, i + 6) && Decode(s, i).Ok?
    ensures Decode(s, i) != StandardDecode(s, i)
  {
    hide HexAt, U4, RuneBytes, Decode, StandardDecode;
    AlongDecodes(s, i);
    StandardIffRaw(s, i);
    RawEndIffDecode(s, i);
    var pair := DecodeSurrogates(U4(s, i + 8), U4(s, i + 14));
    ReplacementBytes(U4(s, i + 8));
    PrependSame(RuneBytes(REPLACEMENT), Prepend(RuneBytes(REPLACEMENT), Decode(s, i + 12)), StandardDecode(s, i + 6));
    PairIsNoReplacement(pair, StandardDecode(s, i + 18).value, Decode(s, i + 12).value);
  }

  lemma ReplacementBytes(r: int)
    requires IsSurrogate(r)
    ensures RuneBytes(r) == RuneBytes(REPLACEMENT)
  {
  }

  /** An escape that takes nothing along is read alike. */
  lemma AloneDecodes(s: seq<byte>, i: nat)
    requires i < |s| && s[i] == BACKSLASH && !TakesAlong(s, i) && Escape(s, i + 1).Ok?
    ensures var e := Escape(s, i + 1);
      && Decode(s, i) == Prepend(e.value, Decode(s, e.next))
      && StandardDecode(s, i) == Prepend(e.value, StandardDecode(s, e.next))
  {
    hide HexAt, U4, EncodeScalar;
    var e := Escape(s, i + 1);
    if EscapedUnit(s, i) && IsSurrogate(U4(s, i + 2)) && !PairAt(s, i) {
      ReplacementBytes(U4(s, i + 2));
      if s[i + 6] == BACKSLASH {
        var b := SimpleEscape(s[i + 7]).value;
        PrependPrepend(RuneBytes(REPLACEMENT), [b], StandardDecode(s, i + 8));
        assert [] + [b] == [b];
      }
    }
  }

  /**
   * On every valid string the reader decodes UTF-16 exactly when it splits no pair, whatever stands between the
   * escapes.
   */
  lemma {:induction false} StandardIffNoSplit(s: seq<byte>, i: nat)
    requires Decode(s, i).Ok?
    ensures Decode(s, i) == StandardDecode(s, i) <==> !SplitsPair(s, i)
    decreases |s| - i
  {
    hide HexAt, U4, RuneBytes, Escape, PairAt, TakesAlong;
    if TakesAlong(s, i) {
      AlongDecodes(s, i);
      AlongAtBackslash(s, i);
      if PairAt(s, i + 6) {
        SplitDiffers(s, i);
      } else {
        var unit := RuneBytes(U4(s, i + 8));
        StandardIffNoSplit(s, i + 12);
        PrependSame(RuneBytes(REPLACEMENT), Prepend(unit, Decode(s, i + 12)), Prepend(unit, StandardDecode(s, i + 12)));
        PrependSame(unit, Decode(s, i + 12), StandardDecode(s, i + 12));
      }
    } else if s[i] == BACKSLASH {
      var e := Escape(s, i + 1);
      AloneDecodes(s, i);
      StandardIffNoSplit(s, e.next);
      PrependSame(e.value, Decode(s, e.next), StandardDecode(s, e.next));
    } else if s[i] != QUOTE {
      StandardIffNoSplit(s, i + 1);
      PrependSame([s[i]], Decode(s, i + 1), StandardDecode(s, i + 1));
    }
  }

  lemma AlongAtBackslash(s: seq<byte>, i: nat)
    requires TakesAlong(s, i)
    ensures i + 12 <= |s| && s[i] == BACKSLASH && HexAt(s, i + 8)
  {
  }

  /** `\ud800\ud83d\ude00"`: the pair stands for U+1F600, but the reader writes U+FFFD three times. */
  const LOST_PAIR: seq<byte> :=
    [BACKSLASH, LOWER_U, 0x64, 0x38, ZERO, ZERO, BACKSLASH, LOWER_U, 0x64, 0x38, 0x33, 0x64, BACKSLASH, LOWER_U, 0x64,
     0x65, ZERO, ZERO, QUOTE]

  lemma PairLostBehindSurrogate()
    ensures StandardDecode(LOST_PAIR, 0) == Ok(RuneBytes(REPLACEMENT) + RuneBytes(0x1F600), 19)
    ensures Decode(LOST_PAIR, 0) == Ok(RuneBytes(REPLACEMENT) + RuneBytes(REPLACEMENT) + RuneBytes(REPLACEMENT), 19)
  {
    hide RuneBytes, Escape;
    var s := LOST_PAIR;
    LostUnits();
    AlongDecodes(s, 0);
    ReplacementBytes(0xD83D);
    LostEnd();
    var f := RuneBytes(REPLACEMENT);
    assert f + (f + f) == f + f + f;
    assert RuneBytes(0x1F600) + [] == RuneBytes(0x1F600);
  }

  lemma LostUnits()
    ensures TakesAlong(LOST_PAIR, 0) && PairAt(LOST_PAIR, 6)
    ensures U4(LOST_PAIR, 8) == 0xD83D && U4(LOST_PAIR, 14) == 0xDE00
    ensures DecodeSurrogates(0xD83D, 0xDE00) == 0x1F600
  {
  }

  lemma LostEnd()
    ensures StandardDecode(LOST_PAIR, 18) == Ok([], 19)
    ensures Decode(LOST_PAIR, 12) == Ok(RuneBytes(REPLACEMENT), 19)
  {
    hide RuneBytes;
    var s := LOST_PAIR;
    assert HexAt(s, 14) && U4(s, 14) == 0xDE00;
    ReplacementBytes(0xDE00);
    assert Escape(s, 13) == Ok(RuneBytes(0xDE00), 18);
    assert Decode(s, 18) == Ok([], 19);
    assert RuneBytes(REPLACEMENT) + [] == RuneBytes(REPLACEMENT);
  }

  // ---------- UTF-8 is kept ----------

  lemma {:induction false} DropAscii(t: seq<byte>, n: nat)
    requires ValidUtf8(t) && n <= |t|
    requires forall k :: 0 <= k < n ==> t[k] < 0x80
    ensures ValidUtf8(t[n..])
    decreases n
  {
    if n == 0 {
      assert t[0..] == t;
    } else {
      DropAscii(t[1..], n - 1);
      assert t[1..][n - 1..] == t[n..];
    }
  }

  lemma EscapeIsAscii(s: seq<byte>, i: nat)
    requires Escape(s, i).Ok?
    ensures forall k :: i <= k < Escape(s, i).next ==> s[k] < 0x80
  {
  }

  lemma EscapeWritesUtf8(s: seq<byte>, i: nat)
    requires Escape(s, i).Ok?
    ensures ValidUtf8(Escape(s, i).value)
  {
    hide ValidUtf8, RuneBytes, HexAt, U4, DecodeSurrogates;
    forall r ensures ValidUtf8(RuneBytes(r)) {
      ValidRune(r);
    }
    forall c: byte | c < 0x80 ensures ValidUtf8([c]) {
      ValidAscii(c);
    }
    forall a, b | ValidUtf8(a) && ValidUtf8(b) ensures ValidUtf8(a + b) {
      ValidConcat(a, b);
    }
    assert forall c: byte :: [] + [c] == [c];
  }

  /** A string whose text is valid UTF-8 decodes to valid UTF-8. */
  lemma {:induction false} DecodeKeepsUtf8(s: seq<byte>, i: nat)
    requires Decode(s, i).Ok? && ValidUtf8(s[i..Decode(s, i).next])
    ensures ValidUtf8(Decode(s, i).value)
    decreases |s| - i
  {
    hide ValidUtf8, Escape;
    var end := Decode(s, i).next;
    var t := s[i..end];
    if s[i] == QUOTE {
      EmptyIsUtf8();
    } else if s[i] == BACKSLASH {
      var e := Escape(s, i + 1);
      EscapeIsAscii(s, i + 1);
      DropAscii(t, e.next - i);
      assert t[e.next - i..] == s[e.next..end];
      EscapeWritesUtf8(s, i + 1);
      DecodeKeepsUtf8(s, e.next);
      ValidConcat(e.value, Decode(s, e.next).value);
    } else {
      CharIsPlain(s, i, end);
      var n := CharLength(t);
      DecodePlainRun(s, i, i + n);
      DecodeKeepsUtf8(s, i + n);
      ValidConcat(s[i..i + n], Decode(s, i + n).value);
    }
  }

  lemma EmptyIsUtf8()
    ensures ValidUtf8([])
  {
  }

  /** The character at a position that is no quote and no escape: its bytes are plain. */
  lemma CharIsPlain(s: seq<byte>, i: nat, end: nat)
    requires i < end <= |s| && ValidUtf8(s[i..end]) && IsPlain(s[i])
    ensures var n := CharLength(s[i..end]);
      && 0 < n <= end - i
      && (forall k :: i <= k < i + n ==> IsPlain(s[k]))
      && ValidUtf8(s[i..i + n]) && ValidUtf8(s[i + n..end])
  {
    hide CharLength, IsPlain;
    var t := s[i..end];
    ValidStarts(t);
    var n := CharLength(t);
    CharBytesArePlain(t);
    assert forall k :: 0 <= k < n ==> t[k] == s[i + k];
    assert forall k :: i <= k < i + n ==> s[k] == t[k - i];
    assert t[n..] == s[i + n..end] && t[..n] == s[i..i + n];
    CharAlone(t);
    ValidStarts(t[..n]);
  }

  lemma ValidStarts(t: seq<byte>)
    ensures ValidUtf8(t) && t != [] ==> CharLength(t) > 0 && ValidUtf8(t[CharLength(t)..])
    ensures t != [] && CharLength(t) == |t| ==> ValidUtf8(t)
  {
    hide CharLength;
    if t != [] && CharLength(t) == |t| {
      assert t[|t|..] == [];
    }
  }

  lemma CharBytesArePlain(t: seq<byte>)
    requires CharLength(t) > 0 && IsPlain(t[0])
    ensures forall k :: 0 <= k < CharLength(t) ==> IsPlain(t[k])
  {
  }

  lemma CharAlone(t: seq<byte>)
    requires CharLength(t) > 0
    ensures CharLength(t[..CharLength(t)]) == CharLength(t)
  {
    var u := t[..CharLength(t)];
    assert forall k :: 0 <= k < |u| ==> u[k] == t[k];
  }
}

/** Bytes, the ASCII characters of the JSON grammar, and texts at a place in a longer text. */
module Bytes {
  type byte = b: int | 0 <= b < 256

  const TAB: byte := 0x09
  const LINE_FEED: byte := 0x0A
  const CARRIAGE_RETURN: byte := 0x0D
  const SPACE: byte := 0x20
  const QUOTE: byte := 0x22
  const PLUS: byte := 0x2B
  const COMMA: byte := 0x2C
  const MINUS: byte := 0x2D
  const DOT: byte := 0x2E
  const SLASH: byte := 0x2F
  const ZERO: byte := 0x30
  const NINE: byte := 0x39
  const COLON: byte := 0x3A
  const UPPER_E: byte := 0x45
  const OPEN_BRACKET: byte := 0x5B
  const BACKSLASH: byte := 0x5C
  const CLOSE_BRACKET: byte := 0x5D
  const LOWER_A: byte := 0x61
  const LOWER_B: byte := 0x62
  const LOWER_E: byte := 0x65
  const LOWER_F: byte := 0x66
  const LOWER_L: byte := 0x6C
  const LOWER_N: byte := 0x6E
  const LOWER_R: byte := 0x72
  const LOWER_S: byte := 0x73
  const LOWER_T: byte := 0x74
  const LOWER_U: byte := 0x75
  const OPEN_BRACE: byte := 0x7B
  const CLOSE_BRACE: byte := 0x7D

  // The rest of each literal behind its first character
  const ULL: seq<byte> := [LOWER_U, LOWER_L, LOWER_L]
  const RUE: seq<byte> := [LOWER_R, LOWER_U, LOWER_E]
  const ALSE: seq<byte> := [LOWER_A, LOWER_L, LOWER_S, LOWER_E]

  /** The outcome of reading at a position: a value and the position just past it, or an error. */
  datatype Outcome<+T> = Ok(value: T, next: nat) | Bad

  datatype Option<+T> = None | Some(value: T)

  predicate IsWhitespace(c: byte) {
    c == SPACE || c == LINE_FEED || c == TAB || c == CARRIAGE_RETURN
  }

  predicate IsDigit(c: byte) {
    ZERO <= c <= NINE
  }

  /** The first position at or after `i` that holds no whitespace, or the end of the text. */
  function SkipWhitespace(s: seq<byte>, i: nat): (j: nat)
    requires i <= |s|
    ensures i <= j <= |s|
    ensures forall k :: i <= k < j ==> IsWhitespace(s[k])
    ensures j < |s| ==> !IsWhitespace(s[j])
    decreases |s| - i
  {
    if i < |s| && IsWhitespace(s[i]) then SkipWhitespace(s, i + 1) else i
  }

  lemma {:induction false} SkipWhitespaceUnique(s: seq<byte>, i: nat, j: nat)
    requires i <= j <= |s|
    requires forall k :: i <= k < j ==> IsWhitespace(s[k])
    requires j < |s| ==> !IsWhitespace(s[j])
    ensures SkipWhitespace(s, i) == j
  {
  }

  lemma SkipNothing(s: seq<byte>, j: nat)
    requires j < |s| && !IsWhitespace(s[j])
    ensures SkipWhitespace(s, j) == j
  {
  }

  lemma SliceGrows(buf: seq<byte>, s: seq<byte>, p: nat, q: nat, r: nat)
    requires p <= q <= r <= |s|
    ensures buf + s[p..q] + s[q..r] == buf + s[p..r]
  {
  }

  /** `t` occurs in `s` at position `i`. */
  predicate At(s: seq<byte>, i: nat, t: seq<byte>) {
    i + |t| <= |s| && s[i..i + |t|] == t
  }

  lemma AtConcat(s: seq<byte>, i: nat, a: seq<byte>, b: seq<byte>)
    ensures At(s, i, a + b) <==> At(s, i, a) && At(s, i + |a|, b)
  {
    var n := i + |a| + |b|;
    if n <= |s| {
      assert s[i..n] == s[i..i + |a|] + s[i + |a|..n];
      if s[i..n] == a + b {
        assert s[i..i + |a|] == s[i..n][..|a|] == a;
        assert s[i + |a|..n] == s[i..n][|a|..] == b;
      }
    }
  }

  lemma AtByte(s: seq<byte>, i: nat, c: byte)
    ensures At(s, i, [c]) <==> i < |s| && s[i] == c
  {
    if i < |s| {
      assert s[i..i + 1] == [s[i]];
    }
  }

  lemma AtIndex(s: seq<byte>, i: nat, t: seq<byte>, k: nat)
    requires At(s, i, t) && k < |t|
    ensures i + |t| <= |s| && s[i + k] == t[k]
  {
    assert s[i..i + |t|][k] == t[k];
  }
}

/** Every scanner of the number readers stops at the end of a valid number. */
module NumberTheorems {
  import opened Bytes
  import opened Decimals
  import opened IntMachines
  import opened FloatMachines

  /** A valid number from `i` to `e`, with the end of the text or a delimiter behind it. */
  predicate NumberAt(s: seq<byte>, i: nat, e: nat) {
    i <= |s| && RfcNumber(s, i) == Some(e) && (e < |s| ==> IsDelimiter(s[e]))
  }

  /** Where its digits start. */
  function Unsigned(s: seq<byte>, i: nat): (k: nat)
    requires i <= |s|
    ensures k <= |s|
  {
    if i < |s| && s[i] == MINUS then i + 1 else i
  }

  // ---------- The run of number characters ----------

  lemma ExponentChars(s: seq<byte>, i: nat, e: nat)
    requires i <= |s| && RfcExponent(s, i) == Some(e)
    ensures forall x :: i <= x < e ==> IsNumberChar(s[x])
  {
    if e > i {
      var k := if i + 1 < |s| && (s[i + 1] == PLUS || s[i + 1] == MINUS) then i + 2 else i + 1;
      DigitsEndDigits(s, k);
    }
  }

  lemma FractionChars(s: seq<byte>, i: nat, e: nat)
    requires i <= |s| && RfcFraction(s, i) == Some(e)
    ensures forall x :: i <= x < e ==> IsNumberChar(s[x])
  {
    hide RfcExponent;
    if i < |s| && s[i] == DOT {
      DigitsEndDigits(s, i + 1);
      ExponentChars(s, DigitsEnd(s, i + 1), e);
    } else {
      ExponentChars(s, i, e);
    }
  }

  /** A valid number is the whole run of number characters, with its sign or without it. */
  lemma NumberEndOfNumber(s: seq<byte>, i: nat, e: nat)
    requires NumberAt(s, i, e)
    ensures NumberEnd(s, i) == e && NumberEnd(s, Unsigned(s, i)) == e
    ensures Unsigned(s, i) < e
  {
    hide RfcFraction, WholeEnd;
    var k := Unsigned(s, i);
    FractionChars(s, WholeEnd(s, k), e);
    NumberEndIs(s, i, e);
    NumberEndIs(s, k, e);
  }

  // ---------- validatePositiveFloat ----------

  lemma ExponentHasNoDot(s: seq<byte>, i: nat, e: nat)
    requires i <= |s| && RfcExponent(s, i) == Some(e)
    ensures forall x :: i <= x < e ==> s[x] != DOT
  {
    if e > i {
      var k := if i + 1 < |s| && (s[i + 1] == PLUS || s[i + 1] == MINUS) then i + 2 else i + 1;
      DigitsEndDigits(s, k);
    }
  }

  /** `validatePositiveFloat` accepts the unsigned text of a valid number. */
  lemma ValidateAccepts(s: seq<byte>, i: nat, e: nat)
    requires NumberAt(s, i, e)
    ensures Unsigned(s, i) < e && ValidatePositiveFloat(s[Unsigned(s, i)..e])
  {
    hide RfcExponent, WholeEnd, DigitsEnd;
    var k := Unsigned(s, i);
    var t := s[k..e];
    var w := WholeEnd(s, k);
    assert forall x :: 0 <= x < |t| ==> t[x] == s[k + x];
    var d := IndexOf(t, DOT, 0);
    if w < |s| && s[w] == DOT {
      DigitsEndDigits(s, w + 1);
      assert t[w - k] == DOT;
      assert IsDigit(s[w + 1]);
    } else {
      ExponentHasNoDot(s, w, e);
    }
  }

  // ---------- The fast path ----------

  /** The fast path falls back, or ends where the number does. */
  predicate EndsAt(f: FastFloat, e: nat) {
    f.Slow? || (f.Fast? && f.next == e)
  }

  lemma {:induction false} FastFractionEnds(
      s: seq<byte>, i: nat, e: nat, limit: nat, v: nat, places: nat, bits: FloatBits)
    requires i <= limit <= |s| && (e < |s| ==> IsDelimiter(s[e]))
    requires RfcExponent(s, DigitsEnd(s, i)) == Some(e)
    ensures EndsAt(FastFraction(s, i, limit, v, places, bits), e)
    decreases limit - i
  {
    hide Safe;
    if i < limit && IsDigit(s[i]) {
      FastFractionEnds(s, i + 1, e, limit, v * 10 + (s[i] - ZERO), places + 1, bits);
    }
  }

  lemma {:induction false} FastWholeEnds(s: seq<byte>, i: nat, w: nat, e: nat, limit: nat, v: nat, bits: FloatBits)
    requires i <= w <= |s| && i <= limit <= |s| && (e < |s| ==> IsDelimiter(s[e]))
    requires forall x :: i <= x < w ==> IsDigit(s[x])
    requires w < |s| ==> !IsDigit(s[w])
    requires RfcFraction(s, w) == Some(e)
    ensures EndsAt(FastWhole(s, i, limit, v, bits), e)
    decreases limit - i
  {
    hide Safe, RfcExponent;
    if i < limit {
      if i < w {
        FastWholeEnds(s, i + 1, w, e, limit, v * 10 + (s[i] - ZERO), bits);
      } else if s[i] == DOT {
        FastFractionEnds(s, i + 1, e, limit, v, 0, bits);
      } else {
        NoExponentHere(s, w, e);
      }
    }
  }

  lemma NoExponentHere(s: seq<byte>, i: nat, e: nat)
    requires i < |s| && RfcExponent(s, i) == Some(e)
    ensures IsExponentMark(s[i]) || e == i
  {
  }

  /** What stands behind the integer part of a valid number is no digit. */
  lemma NoDigitBehindWhole(s: seq<byte>, k: nat, e: nat)
    requires k < |s| && IsDigit(s[k]) && (e < |s| ==> IsDelimiter(s[e]))
    requires RfcFraction(s, WholeEnd(s, k)) == Some(e)
    ensures WholeEnd(s, k) < |s| ==> !IsDigit(s[WholeEnd(s, k)])
  {
  }

  /** On a valid number the fast path never fails, and if it succeeds it stops at the end. */
  lemma FastEndsAtNumber(s: seq<byte>, i: nat, e: nat, limit: nat, bits: FloatBits)
    requires NumberAt(s, i, e) && Unsigned(s, i) <= limit <= |s|
    ensures EndsAt(FastFrom(s, Unsigned(s, i), limit, bits), e)
  {
    hide RfcFraction, WholeEnd;
    var k := Unsigned(s, i);
    NoDigitBehindWhole(s, k, e);
    LeadingZero(s, k);
    if k < limit {
      FastWholeEnds(s, k + 1, WholeEnd(s, k), e, limit, s[k] - ZERO, bits);
    }
  }

  lemma LeadingZero(s: seq<byte>, k: nat)
    requires k < |s| && IsDigit(s[k])
    ensures s[k] == ZERO ==> WholeEnd(s, k) == k + 1
  {
  }

  // ---------- trySkipNumber ----------

  predicate SkipsTo(r: TrySkip, e: nat) {
    r == Undecided || r == Skipped(e)
  }

  lemma {:induction false} TrySkipFraction(s: seq<byte>, head: nat, i: nat, e: nat, limit: nat)
    requires head <= i <= limit <= |s| && (e < |s| ==> IsDelimiter(s[e]))
    requires RfcExponent(s, DigitsEnd(s, i)) == Some(e)
    ensures SkipsTo(TrySkipFrom(s, head, i, limit, true), e)
    ensures limit == |s| && head < e < |s| && ExponentFree(s, i, e) ==>
              TrySkipFrom(s, head, i, limit, true) == Skipped(e)
    decreases limit - i
  {
    if i < limit && IsDigit(s[i]) {
      TrySkipFraction(s, head, i + 1, e, limit);
    }
  }

  lemma {:induction false} TrySkipWhole(s: seq<byte>, head: nat, i: nat, w: nat, e: nat, limit: nat)
    requires head <= i <= limit <= |s| && i <= w <= |s| && (e < |s| ==> IsDelimiter(s[e]))
    requires forall x :: i <= x < w ==> IsDigit(s[x])
    requires w < |s| ==> !IsDigit(s[w])
    requires RfcFraction(s, w) == Some(e)
    ensures SkipsTo(TrySkipFrom(s, head, i, limit, false), e)
    ensures limit == |s| && head < e < |s| && i <= e && ExponentFree(s, i, e) ==>
              TrySkipFrom(s, head, i, limit, false) == Skipped(e)
    decreases limit - i
  {
    hide RfcExponent;
    if i < limit {
      if i < w {
        TrySkipWhole(s, head, i + 1, w, e, limit);
      } else if s[i] == DOT {
        DigitsEndDigits(s, i + 1);
        TrySkipFraction(s, head, i + 1, e, limit);
      } else {
        NoExponentHere(s, w, e);
      }
    }
  }

  /**
   * On a valid number whose first character is consumed, `trySkipNumber` stops at the end or is undecided; it
   * does decide when the delimiter is in the buffer and there is no exponent.
   */
  lemma TrySkipsNumber(s: seq<byte>, i: nat, e: nat, limit: nat)
    requires NumberAt(s, i, e) && i + 1 <= limit <= |s|
    ensures SkipsTo(TrySkipFrom(s, i + 1, i + 1, limit, false), e)
    ensures limit == |s| && i + 1 < e < |s| && ExponentFree(s, i, e) ==>
              TrySkipFrom(s, i + 1, i + 1, limit, false) == Skipped(e)
  {
    hide RfcFraction, WholeEnd, TrySkipFrom;
    var k := Unsigned(s, i);
    NoDigitBehindWhole(s, k, e);
    TrySkipWhole(s, i + 1, i + 1, WholeEnd(s, k), e, limit);
  }
}

/** What the fast path of the float readers makes of every text: when it is taken, and which number it forms. */
module FloatTheorems {
  import opened Bytes
  import opened Decimals
  import opened IntMachines
  import opened FloatMachines
  import opened IterFloat

  /** A comma, a closing bracket or brace, a space, a tab or a line feed; not a carriage return. */
  predicate EndsFast(c: byte) {
    c == 0x2C || c == 0x5D || c == 0x7D || c == 0x20 || c == 0x09 || c == 0x0A
  }

  /** `s[i..e]` are digits and the byte at `e` is none. */
  predicate IsDigitRun(s: seq<byte>, i: nat, e: nat) {
    && i <= e < |s|
    && (forall k :: i <= k < e ==> 0x30 <= s[k] <= 0x39)
    && !(0x30 <= s[e] <= 0x39)
  }

  /** The digits before the last one of a run, written behind `v`, can be multiplied by ten in 64 bits. */
  predicate CanGrow(s: seq<byte>, i: nat, e: nat, v: nat)
    requires IsDigitRun(s, i, e)
  {
    i < e ==> Extend(v, s[i..e - 1]) <= 0x1999_9999_9999_9998
  }

  /**
   * A number that the fast path reads, as it stands in a buffer that reaches to `limit`: digits up to `d`, a single
   * zero or none in front; and, unless they end the number at once, a dot and one to six digits up to `e`. At 64 bits
   * the digits of a fraction together are less than 2^53. The number is `Extend(..) / 10^places`.
   */
  predicate IsFastNumber(s: seq<byte>, i: nat, limit: nat, bits: FloatBits, d: nat, e: nat)
    requires limit <= |s|
  {
    && i < d <= e < limit && IsDigitRun(s, i, d) && EndsFast(s[e])
    && (s[i] == 0x30 ==> d == i + 1) && CanGrow(s, i + 1, d, s[i] - 0x30)
    && (d < e ==>
          && s[d] == 0x2E && d + 1 < e <= d + 7 && IsDigitRun(s, d + 1, e)
          && CanGrow(s, d + 1, e, Extend(0, s[i..d]))
          && (bits == F64 ==> Extend(Extend(0, s[i..d]), s[d + 1..e]) < 0x20_0000_0000_0000))
  }

  /** All its digits, as one number. */
  function MantissaOf(s: seq<byte>, i: nat, limit: nat, bits: FloatBits, d: nat, e: nat): nat
    requires limit <= |s| && IsFastNumber(s, i, limit, bits, d, e)
  {
    if d == e then Extend(0, s[i..d]) else Extend(Extend(0, s[i..d]), s[d + 1..e])
  }

  // ---------- Digits ----------

  lemma ExtendStep(s: seq<byte>, i: nat, e: nat, v: nat)
    requires i < e <= |s| && forall k :: i <= k < e ==> IsDigit(s[k])
    ensures Extend(v, s[i..e]) == Extend(v * 10 + (s[i] - ZERO), s[i + 1..e])
  {
    assert s[i..e][0] == s[i] && s[i..e][1..] == s[i + 1..e];
  }

  lemma ExtendNone(s: seq<byte>, i: nat, v: nat)
    requires i <= |s|
    ensures Extend(v, s[i..i]) == v
  {
    assert s[i..i] == [];
  }

  /** The bound on all digits but the last, digit by digit. */
  lemma GrowStep(s: seq<byte>, i: nat, e: nat, v: nat)
    requires i < e && IsDigitRun(s, i, e)
    ensures CanGrow(s, i, e, v) <==> v <= 0x1999_9999_9999_9998 && CanGrow(s, i + 1, e, v * 10 + (s[i] - ZERO))
  {
    hide Extend;
    if i + 1 < e {
      ExtendStep(s, i, e - 1, v);
      ExtendGrows(v * 10 + (s[i] - ZERO), s[i + 1..e - 1]);
    } else {
      ExtendNone(s, i, v);
    }
  }

  lemma GrowNone(s: seq<byte>, i: nat, v: nat)
    requires IsDigitRun(s, i, i)
    ensures CanGrow(s, i, i, v)
  {
  }

  lemma SafeIs()
    ensures Safe(W64) == 0x1999_9999_9999_9998
  {
  }

  // ---------- Behind the dot ----------

  /** `FastFraction` from a position on, `places` digits behind the dot, in full. */
  predicate IsFractionEnd(s: seq<byte>, i: nat, limit: nat, v: nat, places: nat, bits: FloatBits, e: nat)
    requires limit <= |s|
  {
    && i <= e < limit && IsDigitRun(s, i, e) && EndsFast(s[e]) && 0 < places + (e - i) <= 6 && CanGrow(s, i, e, v)
    && (bits == F64 && i < e ==> Extend(v, s[i..e]) < 0x20_0000_0000_0000)
  }

  lemma {:induction false} FractionIff(
      s: seq<byte>, i: nat, limit: nat, v: nat, places: nat, bits: FloatBits, f: FastFloat)
    requires i <= limit <= |s| && f.Fast?
    ensures FastFraction(s, i, limit, v, places, bits) == f <==>
            && IsFractionEnd(s, i, limit, v, places, bits, f.next)
            && f.decimals == places + (f.next - i) && f.mantissa == Extend(v, s[i..f.next])
    decreases limit - i
  {
    hide Safe, Extend, CanGrow;
    SafeIs();
    if i < limit && IsDigit(s[i]) {
      var v' := v * 10 + (s[i] - ZERO);
      FractionIff(s, i + 1, limit, v', places + 1, bits, f);
      if IsDigitRun(s, i, f.next) && i < f.next {
        GrowStep(s, i, f.next, v);
        ExtendStep(s, i, f.next, v);
        ExtendGrows(v', s[i + 1..f.next]);
        ExtendNone(s, f.next, v');
      }
    } else if i < limit {
      ExtendNone(s, i, v);
      GrowNone(s, i, v);
    }
  }

  // ---------- Before the dot ----------

  /** `FastWhole` from a position on, in full; the digits end at `d`. */
  predicate IsWholeEnd(s: seq<byte>, i: nat, limit: nat, v: nat, bits: FloatBits, d: nat, f: FastFloat)
    requires limit <= |s| && f.Fast?
  {
    && i <= d <= f.next < limit && IsDigitRun(s, i, d) && CanGrow(s, i, d, v)
    && if d == f.next then EndsFast(s[d]) && f.decimals == 0 && f.mantissa == Extend(v, s[i..d])
       else
         && s[d] == DOT && d < f.next && IsFractionEnd(s, d + 1, limit, Extend(v, s[i..d]), 0, bits, f.next)
         && f.decimals == f.next - (d + 1) && f.mantissa == Extend(Extend(v, s[i..d]), s[d + 1..f.next])
  }

  lemma {:induction false} WholeIff(s: seq<byte>, i: nat, limit: nat, v: nat, bits: FloatBits, f: FastFloat)
    requires i <= limit <= |s| && f.Fast?
    ensures FastWhole(s, i, limit, v, bits) == f <==> IsWholeEnd(s, i, limit, v, bits, DigitsEnd(s, i), f)
    decreases limit - i
  {
    hide Safe, Extend, CanGrow, FastFraction, DigitsEnd;
    SafeIs();
    if i < limit && IsDigit(s[i]) {
      var v', d := v * 10 + (s[i] - ZERO), DigitsEnd(s, i);
      DigitsEndStep(s, i, v);
      WholeIff(s, i + 1, limit, v', bits, f);
      if IsDigitRun(s, i, d) && i < d {
        GrowStep(s, i, d, v);
        ExtendStep(s, i, d, v);
      }
      if v > Safe(W64) {
        RunEnds(s, i);
      }
    } else if i < limit {
      NoDigitHere(s, i);
      ExtendNone(s, i, v);
      GrowNone(s, i, v);
      if s[i] == DOT && i + 1 <= limit {
        FractionIff(s, i + 1, limit, v, 0, bits, f);
      }
    }
  }

  lemma NoDigitHere(s: seq<byte>, i: nat)
    requires i < |s| && !IsDigit(s[i])
    ensures DigitsEnd(s, i) == i
  {
  }

  /** The digits at a digit end behind it. */
  lemma RunEnds(s: seq<byte>, i: nat)
    requires i < |s| && IsDigit(s[i])
    ensures i < DigitsEnd(s, i)
  {
  }

  // ---------- The whole path ----------

  lemma RunIsDigitsEnd(s: seq<byte>, i: nat, d: nat)
    requires IsDigitRun(s, i, d)
    ensures DigitsEnd(s, i) == d
  {
    assert forall k :: 0 <= k < d - i ==> s[i..d][k] == s[i + k];
    DigitsEndIs(s, i, d);
  }

  /** A digit, unless it is a zero with another digit behind it, and what `FastWhole` makes of the rest. */
  lemma FromIs(s: seq<byte>, i: nat, limit: nat, bits: FloatBits, f: FastFloat)
    requires i <= limit <= |s| && f.Fast?
    ensures FastFrom(s, i, limit, bits) == f <==>
            && i < limit && IsDigit(s[i]) && (s[i] == ZERO ==> i + 1 < limit && !IsDigit(s[i + 1]))
            && FastWhole(s, i + 1, limit, s[i] - ZERO, bits) == f
  {
    hide FastWhole;
  }

  /** That, as a number in the text. */
  lemma NumberIs(s: seq<byte>, i: nat, limit: nat, bits: FloatBits, f: FastFloat, d: nat)
    requires i < limit <= |s| && f.Fast? && IsDigit(s[i]) && (s[i] == ZERO && i + 1 < limit ==> !IsDigit(s[i + 1]))
    ensures IsWholeEnd(s, i + 1, limit, s[i] - ZERO, bits, d, f) <==>
            && IsFastNumber(s, i, limit, bits, d, f.next)
            && f.mantissa == MantissaOf(s, i, limit, bits, d, f.next)
            && f.decimals == if d == f.next then 0 else f.next - d - 1
  {
    hide Extend, CanGrow;
    if i < d <= |s| && forall k :: i <= k < d ==> IsDigit(s[k]) {
      ExtendStep(s, i, d, 0);
    }
  }

  /**
   * The fast path, in full: it reads exactly the numbers of that form, to their end, and forms all the digits of the
   * number over 10 to the power of the number of digits behind the dot.
   */
  lemma FastIff(s: seq<byte>, i: nat, limit: nat, bits: FloatBits, f: FastFloat)
    requires i <= limit <= |s| && f.Fast?
    ensures FastFrom(s, i, limit, bits) == f <==>
            exists d: nat ::
              && IsFastNumber(s, i, limit, bits, d, f.next)
              && f.mantissa == MantissaOf(s, i, limit, bits, d, f.next)
              && f.decimals == if d == f.next then 0 else f.next - d - 1
  {
    hide FastFrom, FastWhole, IsWholeEnd, MantissaOf, CanGrow, Extend, EndsFast;
    FromIs(s, i, limit, bits, f);
    if i < limit && IsDigit(s[i]) && (s[i] == ZERO ==> i + 1 < limit && !IsDigit(s[i + 1])) {
      WholeIff(s, i + 1, limit, s[i] - ZERO, bits, f);
      NumberIs(s, i, limit, bits, f, DigitsEnd(s, i + 1));
    }
    forall d: nat | IsFastNumber(s, i, limit, bits, d, f.next)
      ensures DigitsEnd(s, i + 1) == d
    {
      RunIsDigitsEnd(s, i + 1, d);
    }
  }

  // ---------- The tables ----------

  /** The bytes of each class the scanners of numbers tell apart. */
  lemma NumberClasses(c: byte)
    ensures FloatDigitOf(c).EndOfNumber? <==> EndsFast(c)
    ensures FloatDigitOf(c).DotInNumber? <==> c == 0x2E
    ensures FloatDigitOf(c).Digit? <==> 0x30 <= c <= 0x39
    ensures FloatDigitOf(c).Digit? ==> FloatDigitOf(c).d == c - 0x30
    ensures IsDelimiter(c) <==> EndsFast(c) || c == 0x0D
    ensures IsNumberChar(c) <==> 0x30 <= c <= 0x39 || c == 0x2B || c == 0x2D || c == 0x2E || c == 0x45 || c == 0x65
  {
  }

  /** The validation looks at the first byte and at the first dot, which must have a digit behind it. */
  lemma ValidateIff(t: seq<byte>)
    ensures ValidatePositiveFloat(t) <==>
            && t != [] && t[0] != 0x2D
            && forall k :: 0 <= k < |t| && t[k] == 0x2E && (forall x :: 0 <= x < k ==> t[x] != 0x2E) ==>
                 k + 1 < |t| && 0x30 <= t[k + 1] <= 0x39
  {
    hide IndexOf;
    var k := IndexOf(t, DOT, 0);
    assert k != -1 ==> forall x :: 0 <= x < k ==> t[x] != 0x2E;
  }
}

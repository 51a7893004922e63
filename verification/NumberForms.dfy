/** Which number texts are those of section 6 of RFC 8259, and which of those are skipped. */
module NumberForms {
  import opened Bytes
  import opened Decimals
  import opened IntMachines
  import opened FloatMachines
  import opened NumberTheorems
  import opened NumberSkips
  import opened IterCore
  import opened ValueMachines
  import opened Grammar

  // ---------- Number texts in place ----------

  lemma ExponentThere(t: seq<byte>, s: seq<byte>, j: nat, x: nat)
    requires NumberThere(t, s, j) && x <= |t| && RfcExponent(t, x) == Some(|t|)
    ensures RfcExponent(s, j + x) == Some(j + |t|)
  {
    if x < |t| {
      assert s[j + x] == t[x];
      var k := if x + 1 < |t| && (t[x + 1] == PLUS || t[x + 1] == MINUS) then x + 2 else x + 1;
      if x + 1 < |t| {
        assert s[j + (x + 1)] == t[x + 1];
      }
      DigitsEndThere(t, s, j, k);
    }
  }

  lemma FractionThere(t: seq<byte>, s: seq<byte>, j: nat, x: nat)
    requires NumberThere(t, s, j) && x <= |t| && RfcFraction(t, x) == Some(|t|)
    ensures RfcFraction(s, j + x) == Some(j + |t|)
  {
    hide RfcExponent;
    if x < |t| {
      assert s[j + x] == t[x];
    }
    if x < |t| && t[x] == DOT {
      DigitsEndThere(t, s, j, x + 1);
      ExponentThere(t, s, j, DigitsEnd(t, x + 1));
    } else {
      ExponentThere(t, s, j, x);
    }
  }

  /** A number text in front of a delimiter is a number of the same length there. */
  lemma NumberThereIsNumber(t: seq<byte>, s: seq<byte>, j: nat)
    requires IsNumberText(t) && NumberThere(t, s, j)
    ensures RfcNumber(s, j) == Some(j + |t|)
  {
    hide RfcFraction;
    assert s[j + 0] == t[0];
    var k := Unsigned(t, 0);
    assert s[j + k] == t[k];
    DigitsEndThere(t, s, j, k);
    FractionThere(t, s, j, WholeEnd(t, k));
  }

  // ---------- The shape of a valid number ----------

  /** The digits behind the first character of a valid number end where its integer part does. */
  lemma WholeIsDigits(t: seq<byte>)
    requires IsNumberText(t)
    ensures t != [] && StartsNumber(t[0])
    ensures var u := Unsigned(t, 0);
      && u < |t| && IsDigit(t[u]) && (t[u] == ZERO && u + 1 < |t| ==> !IsDigit(t[u + 1]))
      && DigitsEnd(t, 1) == WholeEnd(t, u) && RfcFraction(t, DigitsEnd(t, 1)) == Some(|t|)
  {
    hide RfcFraction;
    NoDigitBehindWhole(t, Unsigned(t, 0), |t|);
  }

  /** What `trySkipNumber` makes of a valid number, from where its integer part ends. */
  lemma FractionShape(t: seq<byte>, d: nat)
    requires 1 <= d <= |t| && d == DigitsEnd(t, 1) && RfcFraction(t, d) == Some(|t|)
    ensures forall room :: !IsBrokenNumber(t, room)
    ensures IsPlainNumber(t) <==> |t| > 1 && (d == |t| || (t[d] == DOT && DigitsEnd(t, d + 1) == |t|))
  {
  }

  /** Its exponent mark, if there is one, stands where the digits end. */
  lemma ExponentShape(t: seq<byte>, d: nat)
    requires 1 <= d <= |t| && d == DigitsEnd(t, 1) && RfcFraction(t, d) == Some(|t|) && !IsExponentMark(t[0])
    ensures IsExponentFree(t) <==> d == |t| || (t[d] == DOT && DigitsEnd(t, d + 1) == |t|)
  {
    DigitsEndDigits(t, 1);
    if d < |t| && t[d] == DOT {
      DigitsEndDigits(t, d + 1);
    }
  }

  /** A valid number as `skipNumber` looks at it: never at fault, and plain unless it has an exponent. */
  lemma ValidShape(t: seq<byte>)
    requires IsNumberText(t)
    ensures t != [] && StartsNumber(t[0])
    ensures forall room :: !IsBrokenNumber(t, room) && !StartsBadly(t, room)
    ensures IsPlainNumber(t) <==> |t| > 1 && IsExponentFree(t)
    ensures ValidatePositiveFloat(UnsignedText(t))
    ensures |t| == 1 ==> IsDigit(t[0])
    ensures t[0] == ZERO && |t| > 1 ==> !IsDigit(t[1])
  {
    hide RfcFraction, WholeEnd, IsPlainNumber, IsBrokenNumber, IsExponentFree, RfcNumber, IsNumberText;
    WholeIsDigits(t);
    DigitsStart(t, 1);
    FractionShape(t, DigitsEnd(t, 1));
    ExponentShape(t, DigitsEnd(t, 1));
    ValidTextIsNumber(t);
    ValidateAccepts(t, 0, |t|);
  }

  lemma ValidTextIsNumber(t: seq<byte>)
    requires IsNumberText(t)
    ensures NumberAt(t, 0, |t|) && t[Unsigned(t, 0)..|t|] == UnsignedText(t)
  {
    hide RfcNumber;
  }

  lemma ValidIsRun(t: seq<byte>)
    requires IsNumberText(t)
    ensures IsNumberRun(t)
  {
    hide RfcNumber, IsNumberText;
    ValidTextIsNumber(t);
    NumberEndOfNumber(t, 0, |t|);
    ValidShape(t);
  }

  /**
   * The valid numbers that `Skip` takes. Rejected are those that strconv rejects, when it is asked. Where the byte
   * behind the number is in the buffer, it is not asked for a fraction below one of at most six digits and not for
   * a single digit, if a byte of `floatDigits` ends them; nor for any other number without exponent in front of a
   * delimiter. Where it is not, strconv decides.
   */
  lemma ValidNumberTakenIff(t: seq<byte>, c: byte, room: nat, parsers: FloatParsers)
    requires IsNumberText(t)
    ensures TakenBySkip(t, c, room, parsers) <==>
            if t[0] == ZERO
            then (room > |t| && IsShortFraction(t) && FloatDigitOf(c).EndOfNumber?) || parsers.accepts32(t)
            else
              || (room > |t| && IsExponentFree(t) && |t| > 1 && IsDelimiter(c))
              || (room > |t| && |t| == 1 && FloatDigitOf(c).EndOfNumber?)
              || parsers.accepts64(UnsignedText(t))
  {
    hide IsPlainNumber, IsBrokenNumber, IsExponentFree, ValidatePositiveFloat, StartsBadly, UnsignedText, IsNumberText,
         IsShortFraction;
    ValidShape(t);
    if t[0] == ZERO {
      UnsignedOfDigit(t);
    }
  }

  lemma UnsignedOfDigit(t: seq<byte>)
    requires t != [] && IsDigit(t[0])
    ensures UnsignedText(t) == t
  {
  }

  /** Every skippable number in front of a delimiter is taken, in any split. */
  lemma SkippableNumberIsTaken(t: seq<byte>, j: nat, next: Option<byte>, m: Mode)
    requires IsNumberText(t) && IsSkippableNumber(t, m) && next.Some? && IsDelimiter(next.value)
    ensures IsTakenNumber(t, j, next, m)
  {
    hide IsNumberText, IsNumberRun, TakenBySkip, UnsignedText, IsExponentFree;
    ValidIsRun(t);
    ValidShape(t);
    ValidNumberTakenIff(t, next.value, RoomAt(m, j, |t|), m.parsers);
  }

  // ---------- The texts that are taken although they are no numbers ----------

  /** Go's decimal floating-point syntax, as far as number characters go. */
  predicate IsDecimal(u: seq<byte>) {
    var k := if u != [] && (u[0] == PLUS || u[0] == MINUS) then 1 else 0;
    var d := DigitsEnd(u, k);
    var f := if d < |u| && u[d] == DOT then DigitsEnd(u, d + 1) else d;
    (d > k || f > d + 1) && RfcExponent(u, f) == Some(|u|)
  }

  predicate HasOnlyNumberChars(u: seq<byte>) {
    forall k :: 0 <= k < |u| ==> IsNumberChar(u[k])
  }

  /** Of such texts strconv and math/big accept only decimals; which ones they find out of range is left open. */
  ghost predicate AcceptsOnlyDecimals(parsers: FloatParsers) {
    forall u :: HasOnlyNumberChars(u) && (parsers.accepts32(u) || parsers.accepts64(u) || parsers.acceptsBig(u)) ==>
      IsDecimal(u)
  }

  /**
   * Behind the minus sign a plus sign, a dot, or a zero and another digit; or without a sign a zero and another
   * digit, which is taken only where a chunk ends behind the zero.
   */
  predicate IsExtraForm(t: seq<byte>) {
    && |t| > 1
    && if t[0] == MINUS then t[1] == PLUS || t[1] == DOT || (t[1] == ZERO && |t| > 2 && IsDigit(t[2]))
       else t[0] == ZERO && IsDigit(t[1])
  }

  lemma ExtraFormIsNoNumber(t: seq<byte>)
    requires IsExtraForm(t)
    ensures !IsNumberText(t)
  {
  }

  /** A decimal that starts with a digit, not with a zero and a digit, and passes the validation, is a number. */
  lemma DecimalIsValid(u: seq<byte>)
    requires IsDecimal(u) && ValidatePositiveFloat(u)
    requires IsDigit(u[0]) && (u[0] == ZERO && |u| > 1 ==> !IsDigit(u[1]))
    ensures IsNumberText(u)
  {
    hide RfcExponent;
    var d := DigitsEnd(u, 0);
    DigitsEndDigits(u, 0);
    if d < |u| && u[d] == DOT {
      IndexOfIs(u, DOT, 0, d);
    }
  }

  lemma {:induction false} IndexOfIs(t: seq<byte>, c: byte, i: nat, k: nat)
    requires i <= k < |t| && t[k] == c && forall x :: i <= x < k ==> t[x] != c
    ensures IndexOf(t, c, i) == k
    decreases k - i
  {
    if i < k {
      IndexOfIs(t, c, i + 1, k);
    }
  }

  /** A minus sign in front of a number that has none makes a number. */
  lemma MinusIsValid(u: seq<byte>)
    requires IsNumberText(u) && IsDigit(u[0])
    ensures IsNumberText([MINUS] + u)
  {
    hide RfcNumber;
    var s := [MINUS] + u;
    assert NumberThere(u, s, 1);
    NumberThereIsNumber(u, s, 1);
    BehindMinus(s);
  }

  lemma BehindMinus(s: seq<byte>)
    requires |s| > 1 && s[0] == MINUS && IsDigit(s[1])
    ensures RfcNumber(s, 0) == RfcNumber(s, 1)
  {
    hide RfcFraction, WholeEnd;
  }

  /** A plain text that starts with a digit, or a minus sign and a digit, and no superfluous zero, is a number. */
  lemma PlainIsValid(t: seq<byte>)
    requires IsPlainNumber(t) && StartsNumber(t[0])
    requires var u := Unsigned(t, 0);
      u < |t| && IsDigit(t[u]) && (t[u] == ZERO && u + 1 < |t| ==> !IsDigit(t[u + 1]))
    ensures IsNumberText(t)
  {
  }

  /** A text whose magnitude is a decimal that passes the validation. */
  lemma DecimalMagnitude(t: seq<byte>)
    requires IsNumberRun(t) && IsDecimal(UnsignedText(t)) && ValidatePositiveFloat(UnsignedText(t))
    requires !IsExtraForm(t)
    ensures IsNumberText(t)
  {
    hide IsNumberText, IsDecimal, ValidatePositiveFloat;
    var u := UnsignedText(t);
    DecimalStarts(u);
    DecimalIsValid(u);
    if t[0] == MINUS {
      MinusIsValid(u);
      assert t == [MINUS] + u;
    }
  }

  lemma DecimalStarts(u: seq<byte>)
    requires IsDecimal(u) && ValidatePositiveFloat(u)
    ensures u != [] && (u[0] == PLUS || u[0] == DOT || IsDigit(u[0]))
  {
  }

  /** What `Skip` takes is a valid number exactly if it has none of the extra forms, in any split. */
  lemma TakenIsNumberIff(t: seq<byte>, c: byte, room: nat, parsers: FloatParsers)
    requires IsNumberRun(t) && TakenBySkip(t, c, room, parsers) && AcceptsOnlyDecimals(parsers)
    ensures IsNumberText(t) <==> !IsExtraForm(t)
  {
    hide IsNumberText, IsDecimal, ValidatePositiveFloat, IsBrokenNumber;
    if IsExtraForm(t) {
      ExtraFormIsNoNumber(t);
    } else if t[0] == ZERO && IsShortFraction(t) {
      ShortIsValid(t);
    } else if t[0] != ZERO && IsPlainNumber(t) && IsDelimiter(c) {
      PlainStarts(t);
      PlainIsValid(t);
    } else if |t| == 1 && IsDigit(t[0]) {
      DigitIsValid(t);
    } else {
      assert HasOnlyNumberChars(UnsignedText(t));
      DecimalMagnitude(t);
    }
  }

  lemma ShortIsValid(t: seq<byte>)
    requires IsShortFraction(t)
    ensures IsNumberText(t)
  {
  }

  lemma DigitIsValid(t: seq<byte>)
    requires |t| == 1 && IsDigit(t[0])
    ensures IsNumberText(t)
  {
  }

  lemma PlainStarts(t: seq<byte>)
    requires IsPlainNumber(t) && IsNumberRun(t) && !IsExtraForm(t) && t[0] != ZERO
    ensures var u := Unsigned(t, 0);
      u < |t| && IsDigit(t[u]) && (t[u] == ZERO && u + 1 < |t| ==> !IsDigit(t[u + 1]))
  {
  }
}

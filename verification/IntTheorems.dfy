/** What the integer readers make of every input, whatever stands there. */
module IntTheorems {
  import opened Bytes
  import opened Decimals
  import opened IntMachines

  /** `s[i..e]` is a run of digits that does not begin with a zero and goes no further. */
  predicate IsRunAt(s: seq<byte>, i: nat, e: nat) {
    && i < e <= |s| && s[i] != 0x30
    && (forall k :: i <= k < e ==> 0x30 <= s[k] <= 0x39)
    && (e < |s| ==> !(0x30 <= s[e] <= 0x39))
  }

  /** What the run denotes in decimal. */
  function ValueOfRun(s: seq<byte>, i: nat, e: nat): nat
    requires IsRunAt(s, i, e)
  {
    Extend(0, s[i..e])
  }

  /** 2 to the power of the width. */
  function Power(w: Width): nat {
    if w.W32? then 0x1_0000_0000 else 0x1_0000_0000_0000_0000
  }

  /**
   * What is read at `i`, in full: nothing where no digit stands; a single zero, unless it has a dot behind it,
   * whatever else follows; or the value of a run of digits modulo the width, if it is within `max`, no prefix of the
   * run drops and no dot stands behind it.
   */
  ghost predicate IsOutcome(s: seq<byte>, i: nat, max: int, w: Width, r: IntRead) {
    if i >= |s| || !(0x30 <= s[i] <= 0x39) then r == NotInteger
    else if s[i] == 0x30 then r == if i + 1 < |s| && s[i + 1] == 0x2E then DotAfterZero(i + 1) else IntOk(0, i + 1)
    else
      exists e: nat :: IsRunAt(s, i, e) &&
        r == if SomePrefixDrops(s, i + 1, s[i] - 0x30, Power(w)) then Overflow
             else if e < |s| && s[e] == 0x2E then NotInteger
             else if ValueOfRun(s, i, e) % Power(w) > max then Overflow
             else IntOk(ValueOfRun(s, i, e) % Power(w), e)
  }

  lemma PowerIs(w: Width)
    ensures Modulus(w) == Power(w) > 10
  {
  }

  lemma RunIs(s: seq<byte>, i: nat)
    requires i < |s| && IsDigit(s[i]) && s[i] != ZERO
    ensures IsRunAt(s, i, DigitsEnd(s, i))
  {
    hide DigitsEnd;
    var d := DigitsEnd(s, i);
    forall k | i <= k < d ensures IsDigit(s[k]) {
      assert s[i..d][k - i] == s[k];
    }
  }

  /** At a digit other than zero. */
  lemma RunOutcome(s: seq<byte>, i: nat, w: Width)
    requires i < |s| && IsDigit(s[i]) && s[i] != ZERO
    ensures var e := DigitsEnd(s, i);
      UintAt(s, i, w) ==
      if SomePrefixDrops(s, i + 1, s[i] - ZERO, Power(w)) then Overflow
      else if e < |s| && s[e] == DOT then NotInteger
      else IntOk(Extend(0, s[i..e]) % Power(w), e)
  {
    hide Modulus, DigitLoop, DigitsEnd, Extend, SomePrefixDrops, Power;
    PowerIs(w);
    DigitsEndStep(s, i, 0);
    SmallMod(s[i] - ZERO, Modulus(w));
    DigitLoopMeaning(s, i + 1, s[i] - ZERO, w);
    OverflowReportedIff(s, i, w);
  }

  /** The reader behind a token, with the test against its limit. */
  lemma LimitedOutcome(s: seq<byte>, i: nat, max: int, w: Width)
    requires i < |s| && max >= 0
    ensures IsOutcome(s, i, max, w, Limited(UintFrom(s[i], s, i + 1, w), max))
  {
    hide DigitLoop, DigitsEnd, Extend, SomePrefixDrops, Power;
    UintFromIsUintAt(s, i, w);
    if IsDigit(s[i]) && s[i] != ZERO {
      RunIs(s, i);
      RunOutcome(s, i, w);
      PowerIs(w);
    }
  }

  /** `ReadUint8` to `ReadUint64`, on every input. */
  lemma UnsignedOutcome(s: seq<byte>, i: nat, max: int, w: Width)
    requires i <= |s| && max >= 0
    ensures IsOutcome(s, SkipWhitespace(s, i), max, w, UnsignedAt(s, i, max, w))
  {
    hide UintFrom;
    if SkipWhitespace(s, i) < |s| {
      LimitedOutcome(s, SkipWhitespace(s, i), max, w);
    }
  }

  /** `ReadInt8` to `ReadInt64`, on every input: behind a minus sign the limit is one more and the value negated. */
  lemma SignedOutcome(s: seq<byte>, i: nat, max: int, w: Width)
    requires i <= |s| && max >= 0
    ensures var j, r := SkipWhitespace(s, i), SignedAt(s, i, max, w);
      if j < |s| && s[j] == 0x2D
      then IsOutcome(s, j + 1, max + 1, w, if r.IntOk? then r.(value := -r.value) else r)
      else IsOutcome(s, j, max, w, r)
  {
    hide UintFrom, IsOutcome;
    var j := SkipWhitespace(s, i);
    if j == |s| {
      NothingThere(s, max, w);
    } else if s[j] == MINUS {
      if j + 1 < |s| {
        LimitedOutcome(s, j + 1, max + 1, w);
      } else {
        NothingThere(s, max + 1, w);
      }
    } else {
      LimitedOutcome(s, j, max, w);
    }
  }

  lemma NothingThere(s: seq<byte>, max: int, w: Width)
    ensures IsOutcome(s, |s|, max, w, NotInteger)
  {
  }
}

/** Integer reading on a whole text: the digit loop with its wrap-around, and what it means. */
module IntMachines {
  import opened Bytes
  import opened Decimals

  /** The two accumulators: `readUint32` and `readUint64` differ in nothing else. */
  datatype Width = W32 | W64

  function Modulus(w: Width): nat {
    match w
    case W32 => 0x1_0000_0000
    case W64 => 0x1_0000_0000_0000_0000
  }

  /** `uint32SafeToMultiply10`, `uint64SafeToMultiple10` */
  function Safe(w: Width): nat {
    (Modulus(w) - 1) / 10 - 1
  }

  /**
   * The outcome of reading an unsigned integer: its value and end, a detected overflow, no integer there or a
   * fraction behind it, or a single zero that ends at `next` with a dot behind it.
   */
  datatype IntRead = IntOk(value: int, next: nat) | Overflow | NotInteger | DotAfterZero(next: nat)

  /** `(value << 3) + (value << 1) + ind` in unsigned arithmetic. */
  function Times10Plus(v: nat, d: nat, w: Width): nat {
    (v * 8 % Modulus(w) + v * 2 % Modulus(w) + d) % Modulus(w)
  }

  lemma Times10PlusIs(v: nat, d: nat, w: Width)
    requires v < Modulus(w) && d < 10
    ensures Times10Plus(v, d, w) == (v * 10 + d) % Modulus(w)
    ensures v <= Safe(w) ==> Times10Plus(v, d, w) == v * 10 + d
  {
    hide Modulus, Times10Plus, Safe;
    Times10PlusMod(v, d, w);
    if v <= Safe(w) {
      SafeFits(v, d, w);
      SmallMod(v * 10 + d, Modulus(w));
    }
  }

  lemma Times10PlusMod(v: nat, d: nat, w: Width)
    requires v < Modulus(w) && d < 10
    ensures Times10Plus(v, d, w) == (v * 10 + d) % Modulus(w)
  {
    match w
    case W32 => Times10Plus32(v, d);
    case W64 => Times10Plus64(v, d);
  }

  lemma SafeFits(v: nat, d: nat, w: Width)
    requires v <= Safe(w) && d < 10
    ensures v * 10 + d < Modulus(w)
  {
  }

  lemma Times10Plus32(v: nat, d: nat)
    requires v < 0x1_0000_0000 && d < 10
    ensures (v * 8 % 0x1_0000_0000 + v * 2 % 0x1_0000_0000 + d) % 0x1_0000_0000 == (v * 10 + d) % 0x1_0000_0000
  {
  }

  lemma Times10Plus64(v: nat, d: nat)
    requires v < 0x1_0000_0000_0000_0000 && d < 10
    ensures (v * 8 % 0x1_0000_0000_0000_0000 + v * 2 % 0x1_0000_0000_0000_0000 + d) % 0x1_0000_0000_0000_0000
         == (v * 10 + d) % 0x1_0000_0000_0000_0000
  {
    var q, r := v * 8 / 0x1_0000_0000_0000_0000, v * 2 / 0x1_0000_0000_0000_0000;
    var x := v * 8 % 0x1_0000_0000_0000_0000 + v * 2 % 0x1_0000_0000_0000_0000 + d;
    assert v * 10 + d == (q + r) * 0x1_0000_0000_0000_0000 + x;
  }

  /** The loop of `readUint32` / `readUint64` from position `i` with `value == v`. */
  function DigitLoop(s: seq<byte>, i: nat, v: nat, w: Width): IntRead
    requires i <= |s|
    decreases |s| - i
  {
    if i == |s| then IntOk(v, i)
    else if !IsDigit(s[i]) then (if s[i] == DOT then NotInteger else IntOk(v, i))
    else
      var v' := Times10Plus(v, s[i] - ZERO, w);
      if v > Safe(w) && v' < v then Overflow else DigitLoop(s, i + 1, v', w)
  }

  /** An unsigned integer whose first character is at `i`. */
  function UintAt(s: seq<byte>, i: nat, w: Width): IntRead {
    if i >= |s| || !IsDigit(s[i]) then NotInteger
    else if s[i] == ZERO then (if i + 1 < |s| && s[i + 1] == DOT then DotAfterZero(i + 1) else IntOk(0, i + 1))
    else DigitLoop(s, i + 1, s[i] - ZERO, w)
  }

  /** Where the digits at `i` end. */
  function DigitsEnd(s: seq<byte>, i: nat): (e: nat)
    requires i <= |s|
    ensures i <= e <= |s|
    ensures AreDigits(s[i..e])
    ensures e < |s| ==> !IsDigit(s[e])
    decreases |s| - i
  {
    if i < |s| && IsDigit(s[i]) then
      var e := DigitsEnd(s, i + 1);
      assert s[i..e] == [s[i]] + s[i + 1..e];
      e
    else i
  }

  lemma DigitsEndStep(s: seq<byte>, i: nat, v: nat)
    requires i < |s| && IsDigit(s[i])
    ensures DigitsEnd(s, i) == DigitsEnd(s, i + 1)
    ensures Extend(v, s[i..DigitsEnd(s, i)]) == Extend(v * 10 + (s[i] - ZERO), s[i + 1..DigitsEnd(s, i)])
  {
    var t := s[i..DigitsEnd(s, i)];
    assert t[0] == s[i] && t[1..] == s[i + 1..DigitsEnd(s, i)];
  }

  /**
   * What the loop returns when the digits before it denote `v0`: always the number written, modulo the width;
   * the number itself, and no overflow error, when it fits.
   */
  lemma {:induction false} DigitLoopMeaning(s: seq<byte>, i: nat, v0: nat, w: Width)
    requires i <= |s|
    ensures var e := DigitsEnd(s, i);
      var n := Extend(v0, s[i..e]);
      match DigitLoop(s, i, v0 % Modulus(w), w)
      case IntOk(r, next) => next == e && r == n % Modulus(w) && (e < |s| ==> s[e] != DOT)
      case Overflow => n >= Modulus(w)
      case NotInteger => e < |s| && s[e] == DOT
      case DotAfterZero(_) => false
    decreases |s| - i
  {
    hide Safe, Modulus, Times10Plus, Extend;
    ModulusPositive(w);
    if i < |s| && IsDigit(s[i]) {
      var d := s[i] - ZERO;
      var v := v0 % Modulus(w);
      DigitsEndStep(s, i, v0);
      Times10PlusIs(v, d, w);
      ShiftMod(v0, d, w);
      DigitLoopMeaning(s, i + 1, v0 * 10 + d, w);
      if Times10Plus(v, d, w) < v {
        DropIsOverflow(v0, d, s[i + 1..DigitsEnd(s, i)], w);
      }
    } else {
      assert s[i..i] == [];
      NothingExtends(v0);
    }
  }

  /** Where the value drops, the number does not fit. */
  lemma DropIsOverflow(v0: nat, d: nat, rest: seq<byte>, w: Width)
    requires d < 10 && AreDigits(rest) && Modulus(w) > 0
    requires (v0 * 10 + d) % Modulus(w) < v0 % Modulus(w)
    ensures Extend(v0 * 10 + d, rest) >= Modulus(w)
  {
    hide Modulus, Extend;
    ExtendGrows(v0 * 10 + d, rest);
    if v0 * 10 + d < Modulus(w) {
      SmallMod(v0, Modulus(w));
      SmallMod(v0 * 10 + d, Modulus(w));
    }
  }

  lemma NothingExtends(v: nat)
    ensures Extend(v, []) == v
  {
  }

  lemma ModulusPositive(w: Width)
    ensures Modulus(w) > 10
  {
  }

  lemma SmallMod(v: nat, m: nat)
    requires v < m
    ensures v % m == v
  {
  }

  lemma ShiftMod(v0: nat, d: nat, w: Width)
    ensures (v0 % Modulus(w) * 10 + d) % Modulus(w) == (v0 * 10 + d) % Modulus(w)
  {
    hide Modulus;
    var m := Modulus(w);
    ModulusPositive(w);
    var x := v0 % m * 10 + d;
    assert v0 == v0 / m * m + v0 % m && x == x / m * m + x % m;
    Distribute(v0 / m, x / m, m);
    ModUnique(v0 * 10 + d, v0 / m * 10 + x / m, x % m, m);
  }

  lemma Distribute(a: int, b: int, m: int)
    ensures (a * 10 + b) * m == a * m * 10 + b * m
  {
  }

  lemma ModUnique(x: nat, q: int, r: nat, m: nat)
    requires r < m && x == q * m + r
    ensures x % m == r
  {
    var q' := x / m;
    assert x == q' * m + x % m;
    assert (q - q') * m == x % m - r;
    if q > q' {
      AtLeastOnce(q - q', m);
    } else if q < q' {
      AtLeastOnce(q' - q, m);
    }
  }

  lemma AtLeastOnce(k: int, m: nat)
    requires k >= 1
    ensures k * m >= m
  {
  }

  /**
   * The reader returns the number written exactly when it fits the width. An overflow error is only raised for
   * a number that does not fit, and every accepted value is the number written modulo the width.
   */
  lemma UintExactIffFits(s: seq<byte>, i: nat, w: Width)
    requires i < |s| && IsDigit(s[i]) && s[i] != ZERO
    requires DigitsEnd(s, i) < |s| ==> s[DigitsEnd(s, i)] != DOT
    ensures var e := DigitsEnd(s, i);
      var n := Extend(0, s[i..e]);
      && (UintAt(s, i, w) == IntOk(n, e) <==> n < Modulus(w))
      && (UintAt(s, i, w).Overflow? ==> n >= Modulus(w))
      && (UintAt(s, i, w).IntOk? ==> UintAt(s, i, w) == IntOk(n % Modulus(w), e))
      && (UintAt(s, i, w).Overflow? || UintAt(s, i, w).IntOk?)
  {
    hide Extend, DigitsEnd, Modulus, DigitLoop;
    var d := s[i] - ZERO;
    DigitsEndStep(s, i, 0);
    DigitLoopMeaning(s, i + 1, d, w);
    ModulusPositive(w);
    SmallMod(d, Modulus(w));
    var n := Extend(0, s[i..DigitsEnd(s, i)]);
    if n < Modulus(w) {
      SmallMod(n, Modulus(w));
    }
  }

  /** Behind a prefix that denotes `v0`, some longer prefix is smaller, modulo `m`, than the one before it. */
  predicate SomePrefixDrops(s: seq<byte>, i: nat, v0: nat, m: nat)
    requires i <= |s| && m > 0
    decreases |s| - i
  {
    && i < |s| && IsDigit(s[i])
    && var longer := v0 * 10 + (s[i] - ZERO);
       longer % m < v0 % m || SomePrefixDrops(s, i + 1, longer, m)
  }

  /** Overflow is reported exactly where the value of the digits so far drops modulo the width. */
  lemma {:induction false} OverflowIffDrop(s: seq<byte>, i: nat, v0: nat, w: Width)
    requires i <= |s| && Modulus(w) > 0
    ensures DigitLoop(s, i, v0 % Modulus(w), w).Overflow? <==> SomePrefixDrops(s, i, v0, Modulus(w))
    decreases |s| - i
  {
    hide Safe, Modulus, Times10Plus;
    var m := Modulus(w);
    if i < |s| && IsDigit(s[i]) {
      var d := s[i] - ZERO;
      Times10PlusIs(v0 % m, d, w);
      ShiftMod(v0, d, w);
      OverflowIffDrop(s, i + 1, v0 * 10 + d, w);
    }
  }

  /** What the guard of the readers detects, in full. */
  lemma OverflowReportedIff(s: seq<byte>, i: nat, w: Width)
    requires i < |s| && IsDigit(s[i]) && s[i] != ZERO && Modulus(w) > 0
    ensures UintAt(s, i, w).Overflow? <==> SomePrefixDrops(s, i + 1, s[i] - ZERO, Modulus(w))
  {
    hide DigitLoop, SomePrefixDrops, Modulus;
    ModulusPositive(w);
    SmallMod(s[i] - ZERO, Modulus(w));
    OverflowIffDrop(s, i + 1, s[i] - ZERO, w);
  }

  /** The overflow guard is not complete: ten nines are accepted as a 32-bit number. */
  lemma OverflowMissed()
    ensures UintAt([NINE, NINE, NINE, NINE, NINE, NINE, NINE, NINE, NINE, NINE], 0, W32) == IntOk(1410065407, 10)
  {
    var s: seq<byte> := [NINE, NINE, NINE, NINE, NINE, NINE, NINE, NINE, NINE, NINE];
    hide DigitLoop;
    NineStep(s, 1, 9, 99);
    NineStep(s, 2, 99, 999);
    NineStep(s, 3, 999, 9999);
    NineStep(s, 4, 9999, 99999);
    NineStep(s, 5, 99999, 999999);
    NineStep(s, 6, 999999, 9999999);
    NineStep(s, 7, 9999999, 99999999);
    NineStep(s, 8, 99999999, 999999999);
    NineStep(s, 9, 999999999, 1410065407);
    LoopAtEnd(s, 1410065407);
  }

  lemma NineStep(s: seq<byte>, i: nat, v: nat, v': nat)
    requires i < |s| && s[i] == NINE && v < v' < Modulus(W32) && v' == (v * 10 + 9) % Modulus(W32)
    ensures DigitLoop(s, i, v, W32) == DigitLoop(s, i + 1, v', W32)
  {
    Times10PlusIs(v, 9, W32);
  }

  lemma LoopAtEnd(s: seq<byte>, v: nat)
    ensures DigitLoop(s, |s|, v, W32) == IntOk(v, |s|)
  {
  }

  /** The text of `n` in front of anything but a digit or a dot is read back as `n`, at any width that holds it. */
  lemma DecimalReadsBack(n: nat, s: seq<byte>, i: nat, w: Width)
    requires n < Modulus(w) && At(s, i, Decimal(n))
    requires var e := i + |Decimal(n)|; e < |s| ==> !IsDigit(s[e]) && s[e] != DOT
    ensures UintAt(s, i, w) == IntOk(n, i + |Decimal(n)|)
  {
    hide Decimal;
    var t := Decimal(n);
    var e := i + |t|;
    DecimalDenotes(n);
    AtIndex(s, i, t, 0);
    assert s[i..e] == t;
    if n == 0 {
      DecimalZero();
    } else {
      DigitsEndIs(s, i, e);
      UintExactIffFits(s, i, w);
    }
  }

  lemma {:induction false} DigitsEndIs(s: seq<byte>, i: nat, e: nat)
    requires i <= e <= |s| && AreDigits(s[i..e])
    requires e < |s| ==> !IsDigit(s[e])
    ensures DigitsEnd(s, i) == e
    decreases e - i
  {
    if i < e {
      assert s[i] == s[i..e][0] && s[i..e][1..] == s[i + 1..e];
      DigitsEndIs(s, i + 1, e);
    }
  }

  // ---------- Behind a token, at each width ----------

  /** What `readUint32` and `readUint64` make of the character `c` they are given and the input at `i`. */
  function UintFrom(c: byte, s: seq<byte>, i: nat, w: Width): IntRead
    requires i <= |s|
  {
    if !IsDigit(c) then NotInteger
    else if c == ZERO then (if i < |s| && s[i] == DOT then DotAfterZero(i) else IntOk(0, i))
    else DigitLoop(s, i, c - ZERO, w)
  }

  /** The overflow test of the narrower readers. */
  function Limited(r: IntRead, max: int): IntRead {
    if r.IntOk? && r.value > max then Overflow else r
  }

  /** An unsigned integer up to `max` behind whitespace. */
  function UnsignedAt(s: seq<byte>, i: nat, max: int, w: Width): IntRead
    requires i <= |s|
  {
    var j := SkipWhitespace(s, i);
    if j == |s| then NotInteger else Limited(UintFrom(s[j], s, j + 1, w), max)
  }

  /** What follows a minus sign. */
  function NegativeAt(s: seq<byte>, i: nat, max: int, w: Width): IntRead
    requires i <= |s|
  {
    if i == |s| then NotInteger
    else
      var r := Limited(UintFrom(s[i], s, i + 1, w), max + 1);
      if r.IntOk? then r.(value := -r.value) else r
  }

  /** A signed integer from `-max - 1` to `max` behind whitespace. */
  function SignedAt(s: seq<byte>, i: nat, max: int, w: Width): IntRead
    requires i <= |s|
  {
    var j := SkipWhitespace(s, i);
    if j == |s| then NotInteger
    else if s[j] == MINUS then NegativeAt(s, j + 1, max, w)
    else Limited(UintFrom(s[j], s, j + 1, w), max)
  }

  lemma UintFromIsUintAt(s: seq<byte>, i: nat, w: Width)
    requires i < |s|
    ensures UintFrom(s[i], s, i + 1, w) == UintAt(s, i, w)
  {
  }

  /** Behind the number stands nothing that could belong to it. */
  predicate EndsNumber(s: seq<byte>, e: nat) {
    e < |s| ==> !IsDigit(s[e]) && s[e] != DOT
  }

  /** What an unsigned writer appends is read back exactly by the reader of that width. */
  lemma UnsignedRoundTrip(n: nat, s: seq<byte>, i: nat, max: int, w: Width)
    requires n <= max < Modulus(w)
    requires At(s, i, Decimal(n)) && EndsNumber(s, i + |Decimal(n)|)
    ensures UnsignedAt(s, i, max, w) == IntOk(n, i + |Decimal(n)|)
  {
    hide UintAt, UintFrom, At, Decimal;
    DecimalDenotes(n);
    AtIndex(s, i, Decimal(n), 0);
    SkipWhitespaceUnique(s, i, i);
    DecimalReadsBack(n, s, i, w);
    UintFromIsUintAt(s, i, w);
  }

  /** What a signed writer appends is read back exactly, the minimum value included. */
  lemma SignedRoundTrip(n: int, s: seq<byte>, i: nat, max: int, w: Width)
    requires 0 <= max && -max - 1 <= n <= max && max + 1 < Modulus(w)
    requires At(s, i, SignedDecimal(n)) && EndsNumber(s, i + |SignedDecimal(n)|)
    ensures SignedAt(s, i, max, w) == IntOk(n, i + |SignedDecimal(n)|)
  {
    hide UintAt, UintFrom, At, Decimal, Modulus;
    var m := if n < 0 then -n else n;
    var k := if n < 0 then i + 1 else i;
    DecimalDenotes(m);
    if n < 0 {
      AtConcat(s, i, [MINUS], Decimal(m));
      AtIndex(s, i, [MINUS], 0);
    }
    AtIndex(s, k, Decimal(m), 0);
    SkipWhitespaceUnique(s, i, i);
    DecimalReadsBack(m, s, k, w);
    UintFromIsUintAt(s, k, w);
  }

  // ---------- The narrow readers detect every overflow ----------

  /** The value never drops, so once it is too big to be multiplied safely it stays so. */
  lemma {:induction false} BigStaysBig(s: seq<byte>, i: nat, v: nat, w: Width)
    requires i <= |s| && Safe(w) < v < Modulus(w)
    ensures var r := DigitLoop(s, i, v, w); r.IntOk? ==> r.value > Safe(w)
    decreases |s| - i
  {
    hide Safe, Modulus;
    if i < |s| && IsDigit(s[i]) {
      var v' := Times10Plus(v, s[i] - ZERO, w);
      Times10PlusBound(v, s[i] - ZERO, w);
      if v' >= v {
        BigStaysBig(s, i + 1, v', w);
      }
    }
  }

  lemma Times10PlusBound(v: nat, d: nat, w: Width)
    ensures Times10Plus(v, d, w) < Modulus(w)
  {
  }

  /** An accepted value is the number written, or too big to be multiplied safely. */
  lemma {:induction false} AcceptedIsNumberOrBig(s: seq<byte>, i: nat, v: nat, w: Width)
    requires i <= |s| && v < Modulus(w)
    ensures var r := DigitLoop(s, i, v, w);
      r.IntOk? ==> r.value == Extend(v, s[i..DigitsEnd(s, i)]) || r.value > Safe(w)
    decreases |s| - i
  {
    hide Safe, Modulus, Times10Plus;
    if v > Safe(w) {
      BigStaysBig(s, i, v, w);
    } else if i < |s| && IsDigit(s[i]) {
      var d := s[i] - ZERO;
      DigitsEndStep(s, i, v);
      Times10PlusIs(v, d, w);
      Times10PlusBound(v, d, w);
      AcceptedIsNumberOrBig(s, i + 1, v * 10 + d, w);
    } else {
      assert s[i..i] == [];
    }
  }

  /** The number written at `i`. */
  function NumberWritten(s: seq<byte>, i: nat): nat
    requires i <= |s|
  {
    Extend(0, s[i..DigitsEnd(s, i)])
  }

  /** A limit within the safe range makes the overflow test complete. */
  lemma NarrowIsExact(s: seq<byte>, i: nat, max: nat, w: Width)
    requires i < |s| && IsDigit(s[i]) && s[i] != ZERO && EndsNumber(s, DigitsEnd(s, i)) && max <= Safe(w)
    ensures Limited(UintAt(s, i, w), max) ==
            if NumberWritten(s, i) <= max then IntOk(NumberWritten(s, i), DigitsEnd(s, i)) else Overflow
  {
    hide Extend, DigitsEnd, Modulus, DigitLoop, Safe;
    ModulusPositive(w);
    SafeBound(w);
    UintExactIffFits(s, i, w);
    DigitsEndStep(s, i, 0);
    AcceptedIsNumberOrBig(s, i + 1, s[i] - ZERO, w);
  }

  lemma SafeBound(w: Width)
    ensures Safe(w) < Modulus(w)
  {
  }

  /**
   * `ReadUint8` and `ReadUint16`: every number up to the limit is read as itself, and every greater one is refused.
   * Only the 32-bit and 64-bit readers can accept a wrong value.
   */
  lemma UnsignedNarrow(s: seq<byte>, i: nat, max: nat)
    requires max <= 0xFFFF && i <= |s|
    requires var j := SkipWhitespace(s, i);
      j < |s| && IsDigit(s[j]) && s[j] != ZERO && EndsNumber(s, DigitsEnd(s, j))
    ensures var j := SkipWhitespace(s, i);
      UnsignedAt(s, i, max, W32) ==
      if NumberWritten(s, j) <= max then IntOk(NumberWritten(s, j), DigitsEnd(s, j)) else Overflow
  {
    hide UintAt, UintFrom, NumberWritten;
    var j := SkipWhitespace(s, i);
    NarrowIsExact(s, j, max, W32);
    UintFromIsUintAt(s, j, W32);
  }

  /** `ReadInt8` and `ReadInt16` behind a minus sign. */
  lemma NegativeNarrow(s: seq<byte>, i: nat, max: nat)
    requires max <= 0x7FFF
    requires i < |s| && IsDigit(s[i]) && s[i] != ZERO && EndsNumber(s, DigitsEnd(s, i))
    ensures var n: int := NumberWritten(s, i);
      NegativeAt(s, i, max, W32) == if n <= max + 1 then IntOk(-n, DigitsEnd(s, i)) else Overflow
  {
    hide UintAt, UintFrom, NumberWritten;
    NarrowIsExact(s, i, max + 1, W32);
    UintFromIsUintAt(s, i, W32);
  }
}

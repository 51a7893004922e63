/**
 * Skipping a number on a whole text: what the readers of iter_skip_strict.go and iter_float.go make of it together,
 * and which number texts are taken. The buffer in which the number begins ends at `limit`: what `trySkipNumber` and
 * the fast paths see of the number depends on it.
 */
module NumberSkips {
  import opened Bytes
  import opened IntMachines
  import opened FloatMachines
  import opened NumberTheorems
  import opened IterCore

  /** The number is passed, or it ends the input, or there is an error. */
  datatype NumberSkip = Stops(next: nat) | Ends | Refused

  // ---------- The readers one after the other ----------

  /** `readFloat64SlowPath`, `readFloat32SlowPath`: the run of number characters at `k`, converted. */
  function ConvertedAt(s: seq<byte>, k: nat, accepts: seq<byte> -> bool): NumberSkip
    requires k <= |s|
  {
    var e := NumberEnd(s, k);
    if !(ValidatePositiveFloat(s[k..e]) && accepts(s[k..e])) then Refused else if e < |s| then Stops(e) else Ends
  }

  /** `ReadBigFloat` at `k`. */
  function BigAt(s: seq<byte>, k: nat, parsers: FloatParsers): NumberSkip
    requires k <= |s|
  {
    var e := NumberEnd(s, k);
    if e == k || !parsers.acceptsBig(s[k..e]) then Refused else if e < |s| then Stops(e) else Ends
  }

  /** What a positive float reader leaves. */
  function FloatAt(s: seq<byte>, k: nat, limit: nat, bits: FloatBits, parsers: FloatParsers): NumberSkip
    requires k <= limit <= |s|
  {
    match FastFrom(s, k, limit, bits)
    case Fast(_, _, next) => Stops(next)
    case Fault => Refused
    case Slow => ConvertedAt(s, k, if bits == F32 then parsers.accepts32 else parsers.accepts64)
  }

  /** The part of `skipNumber` behind `trySkipNumber`: an error of the fast path leads to `ReadBigFloat`. */
  function FloatNumber(s: seq<byte>, i: nat, limit: nat, parsers: FloatParsers): NumberSkip
    requires i < limit <= |s|
  {
    var k := Unsigned(s, i);
    if FastFrom(s, k, limit, F64).Fault? then BigAt(s, k, parsers) else FloatAt(s, k, limit, F64, parsers)
  }

  /** `skipNumber`; the number begins at `i`. */
  function SkippedNumber(s: seq<byte>, i: nat, limit: nat, parsers: FloatParsers): NumberSkip
    requires i < limit <= |s|
  {
    match TrySkipFrom(s, i + 1, i + 1, limit, false)
    case Skipped(next) => Stops(next)
    case Failed => Refused
    case Undecided => FloatNumber(s, i, limit, parsers)
  }

  /** `Skip` at `i`: a number that begins with a zero is read as a float32. */
  function SkipNumberAt(s: seq<byte>, i: nat, limit: nat, parsers: FloatParsers): NumberSkip
    requires i < limit <= |s|
  {
    if s[i] == ZERO then FloatAt(s, i, limit, F32, parsers) else SkippedNumber(s, i, limit, parsers)
  }

  // ---------- Which texts are taken ----------

  // `room` is the number of bytes from the start of the number to the end of its buffer; where it is greater than
  // the length of the number, the byte behind the number is in the buffer too.

  /** Behind its first character the text is digits, with at most one dot and digits behind that. */
  predicate IsPlainNumber(t: seq<byte>) {
    |t| > 1 &&
    var d := DigitsEnd(t, 1);
    d == |t| || (t[d] == DOT && d + 1 < |t| && DigitsEnd(t, d + 1) == |t|)
  }

  /** `trySkipNumber` sees a dot without a digit behind it, or a second dot, before anything else. */
  predicate IsBrokenNumber(t: seq<byte>, room: nat) {
    t != [] &&
    var d := DigitsEnd(t, 1);
    d < |t| && t[d] == DOT && d + 1 < room &&
    var f := DigitsEnd(t, d + 1);
    f == d + 1 || (f < |t| && f < room && t[f] == DOT)
  }

  function UnsignedText(t: seq<byte>): seq<byte> {
    if t != [] && t[0] == MINUS then t[1..] else t
  }

  /** The fast path sees the magnitude begin with a dot, or with a zero and another digit. */
  predicate StartsBadly(t: seq<byte>, room: nat) {
    var u := UnsignedText(t);
    var o := |t| - |u|;
    && u != [] && o < room
    && (u[0] == DOT || (u[0] == ZERO && |u| > 1 && o + 1 < room && IsDigit(u[1])))
  }

  /** A number text in front of the byte `c` that `skipNumber` takes. */
  predicate TakenBySkipNumber(t: seq<byte>, c: byte, room: nat, parsers: FloatParsers) {
    if IsBrokenNumber(t, room) then false
    else if room > |t| && IsPlainNumber(t) && IsDelimiter(c) then true
    else if room > |t| && |t| == 1 && IsDigit(t[0]) && FloatDigitOf(c).EndOfNumber? then true
    else if StartsBadly(t, room) then parsers.acceptsBig(UnsignedText(t))
    else ValidatePositiveFloat(UnsignedText(t)) && parsers.accepts64(UnsignedText(t))
  }

  /** A zero, or a zero, a dot and at most six digits. */
  predicate IsShortFraction(t: seq<byte>) {
    t == [ZERO] || (3 <= |t| <= 8 && t[0] == ZERO && t[1] == DOT && DigitsEnd(t, 2) == |t|)
  }

  /** A number text that begins with a zero, in front of the byte `c`, that `ReadFloat32` takes. */
  predicate TakenByReadFloat32(t: seq<byte>, c: byte, room: nat, parsers: FloatParsers) {
    if |t| > 1 && room > 1 && IsDigit(t[1]) then false
    else if room > |t| && IsShortFraction(t) && FloatDigitOf(c).EndOfNumber? then true
    else ValidatePositiveFloat(t) && parsers.accepts32(t)
  }

  /** A number text in front of the byte `c` that `Skip` takes. */
  predicate TakenBySkip(t: seq<byte>, c: byte, room: nat, parsers: FloatParsers) {
    if t != [] && t[0] == ZERO then TakenByReadFloat32(t, c, room, parsers) else TakenBySkipNumber(t, c, room, parsers)
  }

  /** Where the byte behind the number is in the buffer, it does not matter what else is. */
  lemma RoomEnough(t: seq<byte>, c: byte, room: nat, room': nat, parsers: FloatParsers)
    requires |t| < room && |t| < room'
    ensures TakenBySkip(t, c, room, parsers) == TakenBySkip(t, c, room', parsers)
  {
    hide ValidatePositiveFloat, IsPlainNumber, IsShortFraction;
  }

  // ---------- Texts in place ----------

  /** `t` stands in `s` at `j`, and no number goes on behind it. */
  predicate NumberThere(t: seq<byte>, s: seq<byte>, j: nat) {
    && j + |t| <= |s|
    && (forall k :: 0 <= k < |t| ==> s[j + k] == t[k])
    && (j + |t| < |s| ==> !IsNumberChar(s[j + |t|]))
  }

  lemma {:induction false} DigitsEndThere(t: seq<byte>, s: seq<byte>, j: nat, x: nat)
    requires NumberThere(t, s, j) && x <= |t|
    ensures DigitsEnd(s, j + x) == j + DigitsEnd(t, x)
    decreases |t| - x
  {
    if x < |t| {
      assert s[j + x] == t[x];
      if IsDigit(t[x]) {
        DigitsEndThere(t, s, j, x + 1);
      }
    }
  }

  /** The run of number characters at `i`. */
  function RunAt(s: seq<byte>, i: nat): seq<byte>
    requires i <= |s|
  {
    s[i..NumberEnd(s, i)]
  }

  lemma RunIsThere(s: seq<byte>, i: nat)
    requires i <= |s|
    ensures NumberThere(RunAt(s, i), s, i)
    ensures forall k :: 0 <= k < |RunAt(s, i)| ==> IsNumberChar(RunAt(s, i)[k])
  {
  }

  predicate StartsNumber(c: byte) {
    c == MINUS || IsDigit(c)
  }

  // ---------- trySkipNumber ----------

  function Least(a: nat, b: nat): nat {
    if a < b then a else b
  }

  lemma {:induction false} TrySkipDigits(s: seq<byte>, head: nat, i: nat, limit: nat, dotFound: bool)
    requires head <= i <= limit <= |s|
    ensures i <= DigitsEnd(s, i)
    ensures TrySkipFrom(s, head, i, limit, dotFound) ==
            TrySkipFrom(s, head, Least(DigitsEnd(s, i), limit), limit, dotFound)
    decreases limit - i
  {
    if i < limit && IsDigit(s[i]) {
      TrySkipDigits(s, head, i + 1, limit, dotFound);
    }
  }

  /** Behind the digits of the run stands its next character, or the byte behind the run. */
  lemma BehindDigits(s: seq<byte>, i: nat, x: nat)
    requires i <= |s| && x <= |RunAt(s, i)|
    ensures var t := RunAt(s, i);
      var d := DigitsEnd(t, x);
      && x <= d <= |t| && DigitsEnd(s, i + x) == i + d
      && (d < |t| ==> s[i + d] == t[d] && IsNumberChar(t[d]) && !IsDigit(t[d]))
      && (d == |t| < |s| - i ==> !IsNumberChar(s[i + d]))
      && (d > x <==> x < |t| && IsDigit(t[x]))
  {
    hide NumberEnd, DigitsEnd;
    var t := RunAt(s, i);
    RunIsThere(s, i);
    DigitsEndThere(t, s, i, x);
    DigitsStart(t, x);
    if DigitsEnd(t, x) < |t| {
      assert s[i + DigitsEnd(t, x)] == t[DigitsEnd(t, x)];
    }
  }

  /** `trySkipNumber` at the dot of the run, which is at `d` and in the buffer. */
  lemma TrySkipDot(s: seq<byte>, i: nat, d: nat, limit: nat)
    requires i + d < limit <= |s| && 1 <= d < |RunAt(s, i)| && RunAt(s, i)[d] == DOT && s[i + d] == DOT
    ensures var e, t, room := NumberEnd(s, i), RunAt(s, i), limit - i;
      var f := DigitsEnd(t, d + 1);
      var r := TrySkipFrom(s, i + 1, i + d, limit, false);
      && d + 1 <= f <= |t|
      && (d + 1 == room ==> r == Undecided)
      && (d + 1 < room && f == d + 1 ==> r == Failed)
      && (d + 1 < f && room <= f ==> r == Undecided)
      && (d + 1 < f < room && f < |t| ==> r == if t[f] == DOT then Failed else Undecided)
      && (d + 1 < f < room && f == |t| ==> e < |s| && r == if IsDelimiter(s[e]) then Skipped(e) else Undecided)
  {
    hide NumberEnd, TrySkipFrom, DigitsEnd;
    var t := RunAt(s, i);
    BehindDigits(s, i, d + 1);
    RunByte(s, i, d + 1);
    TrySkipAt(s, i + 1, i + d, limit, false);
    if i + d + 1 < limit {
      TrySkipDigits(s, i + 1, i + d + 1, limit, true);
      TrySkipAt(s, i + 1, Least(i + DigitsEnd(t, d + 1), limit), limit, true);
    }
  }

  lemma RunByte(s: seq<byte>, i: nat, x: nat)
    requires i <= |s|
    ensures x < |RunAt(s, i)| ==> i + x < |s| && s[i + x] == RunAt(s, i)[x]
    ensures x == |RunAt(s, i)| && i + x < |s| ==> !IsNumberChar(s[i + x])
  {
  }

  /** What `trySkipNumber` decides, from the run of number characters and the byte behind it. */
  lemma TrySkipRun(s: seq<byte>, i: nat, limit: nat)
    requires i < limit <= |s| && StartsNumber(s[i])
    ensures var e, t, room := NumberEnd(s, i), RunAt(s, i), limit - i;
      var r := TrySkipFrom(s, i + 1, i + 1, limit, false);
      && (r.Skipped? ==> e < |s|)
      && r == if IsBrokenNumber(t, room) then Failed
              else if room > |t| && IsPlainNumber(t) && IsDelimiter(s[e]) then Skipped(e)
              else Undecided
  {
    hide NumberEnd, TrySkipFrom, DigitsEnd;
    var t := RunAt(s, i);
    RunIsNotEmpty(s, i);
    BehindDigits(s, i, 1);
    var d := DigitsEnd(t, 1);
    TrySkipDigits(s, i + 1, i + 1, limit, false);
    if i + d < limit && d < |t| && t[d] == DOT {
      TrySkipDot(s, i, d, limit);
    } else {
      TrySkipAt(s, i + 1, Least(i + d, limit), limit, false);
    }
  }

  lemma RunIsNotEmpty(s: seq<byte>, i: nat)
    requires i < |s| && IsNumberChar(s[i])
    ensures NumberEnd(s, i) > i
  {
  }

  lemma DigitsStart(t: seq<byte>, x: nat)
    requires x <= |t|
    ensures x <= DigitsEnd(t, x) <= |t|
    ensures DigitsEnd(t, x) > x <==> x < |t| && IsDigit(t[x])
    ensures DigitsEnd(t, x) < |t| ==> !IsDigit(t[DigitsEnd(t, x)])
  {
  }

  /** `trySkipNumber` at a byte that is no digit. */
  lemma TrySkipAt(s: seq<byte>, head: nat, i: nat, limit: nat, dotFound: bool)
    requires head <= i <= limit <= |s| && (i < limit ==> !IsDigit(s[i]))
    ensures var r := TrySkipFrom(s, head, i, limit, dotFound);
      && (i == limit ==> r == Undecided)
      && (i < limit && s[i] == DOT ==>
            && (dotFound ==> r == Failed)
            && (!dotFound && i + 1 == limit ==> r == Undecided)
            && (!dotFound && i + 1 < limit && !IsDigit(s[i + 1]) ==> r == Failed)
            && (!dotFound && i + 1 < limit && IsDigit(s[i + 1]) ==> r == TrySkipFrom(s, head, i + 1, limit, true)))
      && (i < limit && IsDelimiter(s[i]) ==> r == if head == i then Undecided else Skipped(i))
      && (i < limit && s[i] != DOT && !IsDelimiter(s[i]) ==> r == Undecided)
  {
  }

  // ---------- The fast path ----------

  /** Digits from `i`, an end of number behind them. */
  predicate DigitsThenEnd(s: seq<byte>, i: nat, limit: nat, next: nat)
    requires i <= limit <= |s|
  {
    next == DigitsEnd(s, i) && next < limit && FloatDigitOf(s[next]).EndOfNumber?
  }

  lemma {:induction false} FastFractionShape(s: seq<byte>, i: nat, limit: nat, v: nat, places: nat, bits: FloatBits)
    requires i <= limit <= |s|
    ensures var f := FastFraction(s, i, limit, v, places, bits);
      && !f.Fault?
      && (f.Fast? ==> DigitsThenEnd(s, i, limit, f.next) && 0 < places + (f.next - i) < POW10_COUNT)
    decreases limit - i
  {
    hide Safe;
    if i < limit && IsDigit(s[i]) {
      FastFractionShape(s, i + 1, limit, v * 10 + (s[i] - ZERO), places + 1, bits);
    }
  }

  /** Digits from `i`, or digits, a dot and up to six digits; an end of number behind them. */
  predicate EndsFast(s: seq<byte>, i: nat, limit: nat, next: nat)
    requires i <= limit <= |s|
  {
    var d := DigitsEnd(s, i);
    || DigitsThenEnd(s, i, limit, next)
    || (d < limit && s[d] == DOT && DigitsThenEnd(s, d + 1, limit, next) && 0 < next - d - 1 < POW10_COUNT)
  }

  lemma {:induction false} FastWholeShape(s: seq<byte>, i: nat, limit: nat, v: nat, bits: FloatBits)
    requires i <= limit <= |s|
    ensures var f := FastWhole(s, i, limit, v, bits);
      !f.Fault? && (f.Fast? ==> EndsFast(s, i, limit, f.next))
    decreases limit - i
  {
    hide Safe, FastFraction;
    if i < limit {
      if IsDigit(s[i]) {
        FastWholeShape(s, i + 1, limit, v * 10 + (s[i] - ZERO), bits);
      } else if s[i] == DOT {
        FastFractionShape(s, i + 1, limit, v, 0, bits);
      }
    }
  }

  /** The fast path fails at once or not at all. */
  predicate FaultAt(s: seq<byte>, k: nat, limit: nat)
    requires limit <= |s|
  {
    && k < limit
    && (|| FloatDigitOf(s[k]).EndOfNumber? || s[k] == DOT
        || (s[k] == ZERO && k + 1 < limit && IsDigit(s[k + 1])))
  }

  lemma FastFromShape(s: seq<byte>, k: nat, limit: nat, bits: FloatBits)
    requires k <= limit <= |s|
    ensures var f := FastFrom(s, k, limit, bits);
      && (f.Fault? <==> FaultAt(s, k, limit))
      && (f.Fast? ==> k < limit && IsDigit(s[k]) && EndsFast(s, k + 1, limit, f.next))
  {
    hide FastWhole, DigitsEnd, EndsFast;
    if k < limit && IsDigit(s[k]) {
      FastWholeShape(s, k + 1, limit, s[k] - ZERO, bits);
    }
  }

  /** The fast path ends where the run of number characters does. */
  lemma FastEndsRun(s: seq<byte>, k: nat, limit: nat, bits: FloatBits)
    requires k <= limit <= |s| && FastFrom(s, k, limit, bits).Fast?
    ensures FastFrom(s, k, limit, bits).next == NumberEnd(s, k) < limit
    ensures FloatDigitOf(s[NumberEnd(s, k)]).EndOfNumber?
  {
    hide FastFrom;
    FastFromShape(s, k, limit, bits);
    var next := FastFrom(s, k, limit, bits).next;
    var d := DigitsEnd(s, k + 1);
    DigitsEndDigits(s, k + 1);
    if d < |s| && s[d] == DOT {
      DigitsEndDigits(s, d + 1);
    }
    NumberEndIs(s, k, next);
  }

  /** A digit by itself in front of an end of number is read fast. */
  lemma OneDigitIsFast(s: seq<byte>, k: nat, limit: nat, bits: FloatBits)
    requires k + 1 < limit <= |s| && IsDigit(s[k]) && FloatDigitOf(s[k + 1]).EndOfNumber?
    ensures FastFrom(s, k, limit, bits) == Fast(s[k] - ZERO, 0, k + 1)
  {
  }

  // ---------- Exactly the texts that are taken ----------

  lemma UnsignedRun(s: seq<byte>, i: nat)
    requires i < |s| && StartsNumber(s[i])
    ensures var e, k := NumberEnd(s, i), Unsigned(s, i);
      i < e && k <= e && NumberEnd(s, k) == e && s[k..e] == UnsignedText(RunAt(s, i))
  {
    RunIsNotEmpty(s, i);
  }

  /** Where the fast path succeeds behind `trySkipNumber`, the number is a single digit. */
  lemma FastIsOneDigit(s: seq<byte>, i: nat, limit: nat)
    requires i < limit <= |s| && StartsNumber(s[i]) && FastFrom(s, Unsigned(s, i), limit, F64).Fast?
    ensures var e, t := NumberEnd(s, i), RunAt(s, i);
      && e < limit && FastFrom(s, Unsigned(s, i), limit, F64).next == e && FloatDigitOf(s[e]).EndOfNumber?
      && (IsPlainNumber(t) || (|t| == 1 && IsDigit(t[0])))
  {
    hide FastFrom, NumberEnd, DigitsEnd, IsPlainNumber, POW10_COUNT;
    var k := Unsigned(s, i);
    FastEndsRun(s, k, limit, F64);
    FastFromShape(s, k, limit, F64);
    UnsignedRun(s, i);
    DigitsOfMinus(s, i);
    RunByte(s, i, 0);
    PlainByDigits(s, i);
  }

  /** A run of more than one character is plain when the digits end where it does. */
  lemma PlainByDigits(s: seq<byte>, i: nat)
    requires i < |s| && StartsNumber(s[i])
    ensures var e, d := NumberEnd(s, i), DigitsEnd(s, i + 1);
      && i < e && d <= |s|
      && (e > i + 1 && d == e ==> IsPlainNumber(RunAt(s, i)))
      && (d < |s| && s[d] == DOT && d + 1 < e == DigitsEnd(s, d + 1) ==> IsPlainNumber(RunAt(s, i)))
  {
    hide NumberEnd, DigitsEnd;
    RunIsNotEmpty(s, i);
    BehindDigits(s, i, 1);
    var t := RunAt(s, i);
    var d := DigitsEnd(t, 1);
    if d < |t| {
      BehindDigits(s, i, d + 1);
    }
  }

  /** Digits behind a minus sign are counted from the sign or from the first digit. */
  lemma DigitsOfMinus(s: seq<byte>, i: nat)
    requires i + 1 < |s| && Unsigned(s, i) < |s| && IsDigit(s[Unsigned(s, i)])
    ensures DigitsEnd(s, i + 1) == DigitsEnd(s, Unsigned(s, i) + 1)
  {
  }

  lemma BadStartIsFault(s: seq<byte>, i: nat, limit: nat)
    requires i < limit <= |s| && StartsNumber(s[i])
    ensures var e, t, k := NumberEnd(s, i), RunAt(s, i), Unsigned(s, i);
      && (StartsBadly(t, limit - i) ==> FaultAt(s, k, limit) && e > k)
      && (FaultAt(s, k, limit) && !StartsBadly(t, limit - i) ==> e == k)
  {
    hide NumberEnd;
    UnsignedRun(s, i);
    RunByte(s, i, 0);
    RunByte(s, i, 1);
    RunByte(s, i, 2);
  }

  /** Behind an undecided `trySkipNumber`. */
  lemma FloatNumberTaken(s: seq<byte>, i: nat, limit: nat, parsers: FloatParsers)
    requires i < limit <= |s| && StartsNumber(s[i])
    ensures var e, t, room := NumberEnd(s, i), RunAt(s, i), limit - i;
      var r := FloatNumber(s, i, limit, parsers);
      && (r.Stops? ==> r.next == e)
      && (!(room > |t| && IsPlainNumber(t) && IsDelimiter(s[e])) ==>
            (r.Stops? <==>
               e < |s| &&
               if room > |t| && |t| == 1 && IsDigit(t[0]) && FloatDigitOf(s[e]).EndOfNumber? then true
               else if StartsBadly(t, room) then parsers.acceptsBig(UnsignedText(t))
               else ValidatePositiveFloat(UnsignedText(t)) && parsers.accepts64(UnsignedText(t))))
  {
    hide FastFrom, NumberEnd, IsPlainNumber, StartsBadly, FaultAt, ValidatePositiveFloat, UnsignedText;
    var k := Unsigned(s, i);
    UnsignedRun(s, i);
    FastFromShape(s, k, limit, F64);
    BadStartIsFault(s, i, limit);
    RunByte(s, i, 0);
    if FastFrom(s, k, limit, F64).Fast? {
      FastIsOneDigit(s, i, limit);
    }
    EndIsDelimiter();
    OneDigit(s, i, limit);
    NothingIsNoNumber();
  }

  lemma EndIsDelimiter()
    ensures forall c: byte :: FloatDigitOf(c).EndOfNumber? ==> IsDelimiter(c)
  {
  }

  lemma NothingIsNoNumber()
    ensures !ValidatePositiveFloat([])
  {
  }

  lemma OneDigit(s: seq<byte>, i: nat, limit: nat)
    requires i < limit <= |s| && StartsNumber(s[i])
    ensures var e, t := NumberEnd(s, i), RunAt(s, i);
      |t| == 1 && IsDigit(t[0]) && e < limit && FloatDigitOf(s[e]).EndOfNumber? ==>
        && !StartsBadly(t, limit - i) && FastFrom(s, Unsigned(s, i), limit, F64) == Fast(t[0] - ZERO, 0, e)
  {
    hide NumberEnd, FastFrom;
    var t := RunAt(s, i);
    RunByte(s, i, 0);
    if |t| == 1 && IsDigit(t[0]) && NumberEnd(s, i) < limit && FloatDigitOf(s[NumberEnd(s, i)]).EndOfNumber? {
      OneDigitIsFast(s, i, limit, F64);
    }
  }

  /**
   * `skipNumber`, in full: it passes exactly the run of number characters, and does so exactly when that text is
   * taken in front of the byte behind it.
   */
  lemma SkippedNumberTaken(s: seq<byte>, i: nat, limit: nat, parsers: FloatParsers)
    requires i < limit <= |s| && StartsNumber(s[i])
    ensures var e := NumberEnd(s, i);
      var r := SkippedNumber(s, i, limit, parsers);
      && (r.Stops? <==> e < |s| && TakenBySkipNumber(RunAt(s, i), s[e], limit - i, parsers))
      && (r.Stops? ==> r.next == e)
  {
    hide NumberEnd, TrySkipFrom, IsPlainNumber, IsBrokenNumber, StartsBadly, ValidatePositiveFloat, UnsignedText,
         FloatNumber;
    TrySkipRun(s, i, limit);
    FloatNumberTaken(s, i, limit, parsers);
  }

  // ---------- Numbers that begin with a zero ----------

  function Ten(p: nat): (n: nat)
    ensures n >= 1
    ensures p <= 6 ==> n <= 1000000
  {
    if p == 0 then 1 else if p == 1 then 10 else if p == 2 then 100 else if p == 3 then 1000
    else if p == 4 then 10000 else if p == 5 then 100000 else 1000000
  }

  /** At most six digits behind the dot stay on the fast path. */
  lemma {:induction false} FastShortFraction(s: seq<byte>, i: nat, limit: nat, v: nat, places: nat)
    requires i <= limit <= |s| && v < Ten(places)
    requires var d := DigitsEnd(s, i); DigitsThenEnd(s, i, limit, d) && 0 < places + (d - i) <= 6
    ensures FastFraction(s, i, limit, v, places, F32).Fast?
    decreases limit - i
  {
    if IsDigit(s[i]) {
      DigitsStart(s, i + 1);
      FastShortFraction(s, i + 1, limit, v * 10 + (s[i] - ZERO), places + 1);
    }
  }

  lemma FastZero(s: seq<byte>, i: nat, limit: nat)
    requires i < limit <= |s| && s[i] == ZERO
    ensures var e := NumberEnd(s, i);
      FastFrom(s, i, limit, F32).Fast? <==>
        e < limit && IsShortFraction(RunAt(s, i)) && FloatDigitOf(s[e]).EndOfNumber?
  {
    hide FastFrom, FastWhole, NumberEnd, DigitsEnd;
    var e, t := NumberEnd(s, i), RunAt(s, i);
    if FastFrom(s, i, limit, F32).Fast? {
      FastEndsRun(s, i, limit, F32);
      ZeroIsShort(s, i, limit);
    } else if e < limit && IsShortFraction(t) && FloatDigitOf(s[e]).EndOfNumber? {
      ShortIsFast(s, i, limit);
    }
  }

  lemma ZeroIsShort(s: seq<byte>, i: nat, limit: nat)
    requires i < limit <= |s| && s[i] == ZERO && FastFrom(s, i, limit, F32).Fast?
    ensures IsShortFraction(RunAt(s, i))
  {
    hide FastFrom, NumberEnd, DigitsEnd;
    var t := RunAt(s, i);
    FastFromShape(s, i, limit, F32);
    FastEndsRun(s, i, limit, F32);
    RunIsNotEmpty(s, i);
    ZeroIsNoFault(s, i, limit);
    RunByte(s, i, 0);
    RunByte(s, i, 1);
    NoDigitHere(s, i + 1);
    if |t| >= 2 {
      BehindDigits(s, i, 2);
    }
  }

  lemma ZeroIsNoFault(s: seq<byte>, i: nat, limit: nat)
    requires i < limit <= |s| && s[i] == ZERO && !FastFrom(s, i, limit, F32).Fault?
    ensures i + 1 < limit ==> !IsDigit(s[i + 1])
  {
    hide FastFrom;
    FastFromShape(s, i, limit, F32);
  }

  lemma NoDigitHere(s: seq<byte>, i: nat)
    requires i <= |s|
    ensures (i < |s| ==> !IsDigit(s[i])) ==> DigitsEnd(s, i) == i
  {
  }

  lemma ShortIsFast(s: seq<byte>, i: nat, limit: nat)
    requires i < limit <= |s| && s[i] == ZERO && NumberEnd(s, i) < limit && IsShortFraction(RunAt(s, i))
    requires FloatDigitOf(s[NumberEnd(s, i)]).EndOfNumber?
    ensures FastFrom(s, i, limit, F32).Fast?
  {
    hide FastFraction, NumberEnd, DigitsEnd;
    var t := RunAt(s, i);
    RunByte(s, i, 1);
    if t == [ZERO] {
      OneDigitIsFast(s, i, limit, F32);
    } else {
      BehindDigits(s, i, 2);
      FastShortFraction(s, i + 2, limit, 0, 0);
    }
  }

  /** `ReadFloat32` at a zero, in full. */
  lemma Float32Taken(s: seq<byte>, i: nat, limit: nat, parsers: FloatParsers)
    requires i < limit <= |s| && s[i] == ZERO
    ensures var e := NumberEnd(s, i);
      var r := FloatAt(s, i, limit, F32, parsers);
      && (r.Stops? <==> e < |s| && TakenByReadFloat32(RunAt(s, i), s[e], limit - i, parsers))
      && (r.Stops? ==> r.next == e)
  {
    hide FastFrom, NumberEnd, IsShortFraction, ValidatePositiveFloat;
    FastZero(s, i, limit);
    FastFromShape(s, i, limit, F32);
    RunIsNotEmpty(s, i);
    RunByte(s, i, 1);
    if FastFrom(s, i, limit, F32).Fast? {
      ShortHasNoDigit(RunAt(s, i));
      FastEndsRun(s, i, limit, F32);
    }
  }

  lemma ShortHasNoDigit(t: seq<byte>)
    requires IsShortFraction(t)
    ensures |t| > 1 ==> !IsDigit(t[1])
  {
  }

  /** The number that `Skip` passes at `i`, in full. */
  lemma SkipNumberTaken(s: seq<byte>, i: nat, limit: nat, parsers: FloatParsers)
    requires i < limit <= |s| && StartsNumber(s[i])
    ensures var e := NumberEnd(s, i);
      var r := SkipNumberAt(s, i, limit, parsers);
      && (r.Stops? <==> e < |s| && TakenBySkip(RunAt(s, i), s[e], limit - i, parsers))
      && (r.Stops? ==> r.next == e)
  {
    hide NumberEnd, SkippedNumber, FloatAt, TakenByReadFloat32, TakenBySkipNumber;
    RunIsNotEmpty(s, i);
    RunByte(s, i, 0);
    if s[i] == ZERO {
      Float32Taken(s, i, limit, parsers);
    } else {
      SkippedNumberTaken(s, i, limit, parsers);
    }
  }
}

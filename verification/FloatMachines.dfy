/** Numbers on a whole text: the grammar of section 6 of RFC 8259, and the scanners of the float readers. */
module FloatMachines {
  import opened Bytes
  import opened Decimals
  import opened IntMachines

  // ---------- The grammar ----------

  /** Section 6 of RFC 8259, read greedily from `i`: where the number ends. */
  function RfcNumber(s: seq<byte>, i: nat): (e: Option<nat>)
    requires i <= |s|
    ensures e.Some? ==> i < e.value <= |s|
  {
    var k := if i < |s| && s[i] == MINUS then i + 1 else i;
    if k == |s| || !IsDigit(s[k]) then None
    else RfcFraction(s, WholeEnd(s, k))
  }

  /** The integer part: a single zero, or digits that do not start with one. */
  function WholeEnd(s: seq<byte>, k: nat): (e: nat)
    requires k < |s| && IsDigit(s[k])
    ensures k < e <= |s|
    ensures forall x :: k <= x < e ==> IsDigit(s[x])
  {
    if s[k] == ZERO then k + 1
    else
      DigitsEndDigits(s, k);
      DigitsEnd(s, k)
  }

  function RfcFraction(s: seq<byte>, i: nat): (e: Option<nat>)
    requires i <= |s|
    ensures e.Some? ==> i <= e.value <= |s|
  {
    if i < |s| && s[i] == DOT then
      var f := DigitsEnd(s, i + 1);
      if f > i + 1 then RfcExponent(s, f) else None
    else RfcExponent(s, i)
  }

  predicate IsExponentMark(c: byte) {
    c == LOWER_E || c == UPPER_E
  }

  function RfcExponent(s: seq<byte>, i: nat): (e: Option<nat>)
    requires i <= |s|
    ensures e.Some? ==> i <= e.value <= |s|
  {
    if i < |s| && IsExponentMark(s[i]) then
      var k := if i + 1 < |s| && (s[i + 1] == PLUS || s[i + 1] == MINUS) then i + 2 else i + 1;
      var e := DigitsEnd(s, k);
      if e > k then Some(e) else None
    else Some(i)
  }

  /** `s[i..e]` holds no exponent mark. */
  predicate ExponentFree(s: seq<byte>, i: nat, e: nat)
    requires i <= e <= |s|
  {
    forall k :: i <= k < e ==> !IsExponentMark(s[k])
  }

  lemma {:induction false} DigitsEndDigits(s: seq<byte>, i: nat)
    requires i <= |s|
    ensures forall k :: i <= k < DigitsEnd(s, i) ==> IsDigit(s[k])
    ensures i < |s| && IsDigit(s[i]) ==> i < DigitsEnd(s, i)
    decreases |s| - i
  {
    if i < |s| && IsDigit(s[i]) {
      DigitsEndDigits(s, i + 1);
    }
  }

  // ---------- The run of number characters ----------

  /** The characters `readNumberAsBytes` collects. */
  predicate IsNumberChar(c: byte) {
    IsDigit(c) || c == PLUS || c == MINUS || c == DOT || IsExponentMark(c)
  }

  function NumberEnd(s: seq<byte>, i: nat): (e: nat)
    requires i <= |s|
    ensures i <= e <= |s|
    ensures forall k :: i <= k < e ==> IsNumberChar(s[k])
    ensures e < |s| ==> !IsNumberChar(s[e])
    decreases |s| - i
  {
    if i < |s| && IsNumberChar(s[i]) then NumberEnd(s, i + 1) else i
  }

  lemma {:induction false} NumberEndIs(s: seq<byte>, i: nat, e: nat)
    requires i <= e <= |s|
    requires forall k :: i <= k < e ==> IsNumberChar(s[k])
    requires e < |s| ==> !IsNumberChar(s[e])
    ensures NumberEnd(s, i) == e
  {
  }

  /** What may follow a number: the bytes at which the scanners stop without an error. */
  predicate IsDelimiter(c: byte) {
    c == COMMA || c == CLOSE_BRACKET || c == CLOSE_BRACE || IsWhitespace(c)
  }

  // ---------- validatePositiveFloat ----------

  /** `bytes.IndexByte`, from `i` */
  function IndexOf(t: seq<byte>, c: byte, i: nat): (k: int)
    requires i <= |t|
    ensures k == -1 || (i <= k < |t| && t[k] == c)
    ensures forall x :: i <= x < (if k == -1 then |t| else k) ==> t[x] != c
    decreases |t| - i
  {
    if i == |t| then -1 else if t[i] == c then i else IndexOf(t, c, i + 1)
  }

  /** `validatePositiveFloat`: whether it finds no fault. */
  predicate ValidatePositiveFloat(input: seq<byte>) {
    if |input| == 0 then false
    else if input[0] == MINUS then false
    else
      var dotPos := IndexOf(input, DOT, 0);
      if dotPos != -1 then dotPos != |input| - 1 && IsDigit(input[dotPos + 1]) else true
  }

  // ---------- The fast path of the float readers ----------

  datatype FloatBits = F32 | F64

  /**
   * The fast path over the buffer: the rational mantissa / 10^decimals and where it ends, a fall back to the
   * slow path, or an error.
   */
  datatype FastFloat = Fast(mantissa: nat, decimals: nat, next: nat) | Slow | Fault

  /** An entry of `floatDigits` */
  datatype FloatDigit = Digit(d: nat) | InvalidChar | EndOfNumber | DotInNumber

  function FloatDigitOf(c: byte): FloatDigit {
    if IsDigit(c) then Digit(c - ZERO)
    else if c == COMMA || c == CLOSE_BRACKET || c == CLOSE_BRACE || c == SPACE || c == TAB || c == LINE_FEED
    then EndOfNumber
    else if c == DOT then DotInNumber
    else InvalidChar
  }

  const MAX_FLOAT64 := 0x1F_FFFF_FFFF_FFFF
  const POW10_COUNT := 7

  /** `readPositiveFloat32`, `readPositiveFloat64` from `i`, in a buffer that reaches to `limit`. */
  function FastFrom(s: seq<byte>, i: nat, limit: nat, bits: FloatBits): FastFloat
    requires i <= limit <= |s|
  {
    if i == limit then Slow
    else
      match FloatDigitOf(s[i])
      case InvalidChar => Slow
      case EndOfNumber => Fault
      case DotInNumber => Fault
      case Digit(d) =>
        if d == 0 && i + 1 == limit then Slow
        else if d == 0 && IsDigit(s[i + 1]) then Fault
        else FastWhole(s, i + 1, limit, d, bits)
  }

  /** The digits before the dot. */
  function FastWhole(s: seq<byte>, i: nat, limit: nat, v: nat, bits: FloatBits): FastFloat
    requires i <= limit <= |s|
    decreases limit - i
  {
    if i == limit then Slow
    else
      match FloatDigitOf(s[i])
      case InvalidChar => Slow
      case EndOfNumber => Fast(v, 0, i)
      case DotInNumber => FastFraction(s, i + 1, limit, v, 0, bits)
      case Digit(d) => if v > Safe(W64) then Slow else FastWhole(s, i + 1, limit, v * 10 + d, bits)
  }

  /** The digits after the dot. */
  function FastFraction(s: seq<byte>, i: nat, limit: nat, v: nat, places: nat, bits: FloatBits): FastFloat
    requires i <= limit <= |s|
    decreases limit - i
  {
    if i == limit then Slow
    else
      match FloatDigitOf(s[i])
      case EndOfNumber => if 0 < places < POW10_COUNT then Fast(v, places, i) else Slow
      case InvalidChar => Slow
      case DotInNumber => Slow
      case Digit(d) =>
        if v > Safe(W64) then Slow
        else if bits == F64 && v * 10 + d > MAX_FLOAT64 then Slow
        else FastFraction(s, i + 1, limit, v * 10 + d, places + 1, bits)
  }

  // ---------- trySkipNumber ----------

  /** Skipped to a position, failed with an error, or undecided: `trySkipNumber` returns false. */
  datatype TrySkip = Skipped(next: nat) | Failed | Undecided

  function TrySkipFrom(s: seq<byte>, head: nat, i: nat, limit: nat, dotFound: bool): TrySkip
    requires head <= i <= limit <= |s|
    decreases limit - i
  {
    if i == limit then Undecided
    else if IsDigit(s[i]) then TrySkipFrom(s, head, i + 1, limit, dotFound)
    else if s[i] == DOT then
      if dotFound then Failed
      else if i + 1 == limit then Undecided
      else if !IsDigit(s[i + 1]) then Failed
      else TrySkipFrom(s, head, i + 1, limit, true)
    else if IsDelimiter(s[i]) then (if head == i then Undecided else Skipped(i))
    else Undecided
  }
}

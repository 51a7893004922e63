/** iter_float.go: the number readers; strconv and math/big are the iterator's `parsers`. */
module IterFloat {
  import opened Bytes
  import opened IntMachines
  import opened FloatMachines
  import opened IterCore

  /**
   * What a float reader returns: on the fast path the rational mantissa / 10^decimals that the two integers
   * stand for, on the slow path what strconv makes of a text.
   */
  datatype FloatValue = Rational(mantissa: nat, decimals: nat) | Converted(text: seq<byte>) | NoValue

  // ---------- The text of a number ----------

  lemma {:induction false} NumberEndFrom(s: seq<byte>, i: nat, j: nat)
    requires i <= j <= |s|
    requires forall k :: i <= k < j ==> IsNumberChar(s[k])
    ensures NumberEnd(s, i) == NumberEnd(s, j)
    decreases j - i
  {
    if i < j {
      NumberEndFrom(s, i + 1, j);
    }
  }

  lemma NumberEndHere(s: seq<byte>, i: nat)
    requires i <= |s| && (i < |s| ==> !IsNumberChar(s[i]))
    ensures NumberEnd(s, i) == i
  {
  }

  /** The loop of `readNumberAsBytes` over one buffer: where it stops, and what it collects. */
  method ScanNumber(iter: Iterator) returns (i: int, run: seq<byte>)
    requires iter.Valid()
    ensures iter.head <= i <= iter.tail && run == iter.input[iter.Pos()..iter.inputOffset + i]
    ensures NumberEnd(iter.input, iter.Pos()) == NumberEnd(iter.input, iter.inputOffset + i)
    ensures i < iter.tail || iter.inputOffset + i == |iter.input| ==>
              NumberEnd(iter.input, iter.Pos()) == iter.inputOffset + i
  {
    hide iter.BufferValid, iter.ReaderValid, iter.CapturedTo, NumberEnd;
    i := iter.head;
    while i < iter.tail
      invariant iter.head <= i <= iter.tail
      invariant forall k :: iter.Pos() <= k < iter.inputOffset + i ==> IsNumberChar(iter.input[k])
    {
      iter.BufferAt(i);
      if !IsNumberChar(iter.buf[i]) {
        break;
      }
      i := i + 1;
    }
    NumberEndFrom(iter.input, iter.Pos(), iter.inputOffset + i);
    if i < iter.tail || iter.inputOffset + i == |iter.input| {
      NumberEndHere(iter.input, iter.inputOffset + i);
    }
    iter.BufferSlice(iter.head, i);
    run := iter.buf[iter.head..i];
  }

  /** `readNumberAsBytes`, without its last test. */
  method CollectNumber(iter: Iterator, buf: seq<byte>) returns (text: seq<byte>)
    requires iter.Valid()
    modifies iter, iter.buf
    ensures iter.Kept()
    ensures var p := old(iter.Pos());
      var e := NumberEnd(iter.input, p);
      && text == buf + iter.input[p..e]
      && (e < |iter.input| ==> iter.Pos() == e && iter.err == old(iter.err))
      && (e == |iter.input| ==>
            && iter.err == iter.Exhausted(old(iter.err))
            && NumberEnd(iter.input, iter.Pos()) == |iter.input|
            && (!iter.fromReader && old(iter.err) == NoError ==> iter.Pos() == |iter.input|))
  {
    hide iter.BufferValid, iter.ReaderValid, iter.CapturedTo;
    hide NumberEnd;
    ghost var p := iter.Pos();
    text := buf;
    assert buf + iter.input[p..p] == buf;
    while true
      invariant iter.Kept() && iter.err == old(iter.err)
      invariant NumberEnd(iter.input, p) == NumberEnd(iter.input, iter.Pos())
      invariant text == buf + iter.input[p..iter.Pos()]
      decreases |iter.input| - iter.inputOffset - iter.tail
    {
      var i, run := ScanNumber(iter);
      SliceGrows(buf, iter.input, p, iter.Pos(), iter.inputOffset + i);
      text := text + run;
      if i < iter.tail {
        iter.head := i;
        return;
      }
      var more := iter.LoadMore();
      if !more {
        return;
      }
    }
  }

  /** `readNumberAsBytes`; nil is the empty text. */
  method ReadNumberAsBytes(iter: Iterator, buf: seq<byte>) returns (text: seq<byte>)
    requires iter.Valid()
    modifies iter, iter.buf
    ensures iter.Kept()
    ensures var p := old(iter.Pos());
      var e := NumberEnd(iter.input, p);
      old(iter.err) == NoError ==>
        && (e < |iter.input| ==>
              && iter.Pos() == e
              && text == buf + iter.input[p..e]
              && iter.err == if text == [] then Other else NoError)
        && (e == |iter.input| ==>
              && iter.err != NoError
              && NumberEnd(iter.input, iter.Pos()) == |iter.input|
              && (iter.err == EOF ==> text == buf + iter.input[p..e])
              && (iter.err == if iter.Exhausted(NoError).Other? || buf + iter.input[p..e] == [] then Other else EOF)
              && (!iter.fromReader ==> iter.Pos() == |iter.input|))
  {
    hide iter.BufferValid, iter.ReaderValid, iter.CapturedTo;
    text := CollectNumber(iter, buf);
    if iter.err != NoError && iter.err != EOF {
      return [];
    }
    if |text| == 0 {
      iter.ReportError();
    }
  }

  // ---------- Floats ----------

  /** Whether strconv accepts the text at this size. */
  predicate Accepts(iter: Iterator, bits: FloatBits, text: seq<byte>) {
    if bits == F32 then iter.parsers.accepts32(text) else iter.parsers.accepts64(text)
  }

  /** What the slow path needs for success. */
  predicate SlowAccepts(iter: Iterator, bits: FloatBits, text: seq<byte>) {
    ValidatePositiveFloat(text) && Accepts(iter, bits, text)
  }

  /** `readFloat32SlowPath`, `readFloat64SlowPath` */
  method ReadFloatSlowPath(iter: Iterator, bits: FloatBits) returns (ret: FloatValue)
    requires iter.Valid()
    modifies iter, iter.buf
    ensures iter.Kept()
    ensures old(iter.err) == NoError ==>
      SlowResult(iter, bits, old(iter.Pos()), ret)
  {
    hide iter.BufferValid, iter.ReaderValid, iter.CapturedTo, NumberEnd, SlowAccepts;
    ghost var p := iter.Pos();
    var strBuf := ReadNumberAsBytes(iter, []);
    assert [] + iter.input[p..NumberEnd(iter.input, p)] == iter.input[p..NumberEnd(iter.input, p)];
    NothingIsNoFloat(iter, bits);
    if iter.err != NoError && iter.err != EOF {
      return NoValue;
    }
    ret := Convert(iter, strBuf, bits);
  }

  lemma NothingIsNoFloat(iter: Iterator, bits: FloatBits)
    ensures !SlowAccepts(iter, bits, [])
  {
  }

  /** The check and the conversion of the text in the slow path. */
  method Convert(iter: Iterator, strBuf: seq<byte>, bits: FloatBits) returns (ret: FloatValue)
    requires iter.Valid()
    modifies iter`err
    ensures iter.Valid()
    ensures if SlowAccepts(iter, bits, strBuf) then ret == Converted(strBuf) && iter.err == old(iter.err)
            else iter.err == Other
  {
    hide iter.BufferValid, iter.ReaderValid, iter.CapturedTo, IndexOf;
    if !ValidatePositiveFloat(strBuf) {
      iter.ReportError();
      return NoValue;
    }
    if !Accepts(iter, bits, strBuf) {
      iter.err := Other;
      return NoValue;
    }
    return Converted(strBuf);
  }

  /** The state the slow path leaves when it began at `p`: it took the whole run of number characters there. */
  ghost predicate SlowResult(iter: Iterator, bits: FloatBits, p: nat, ret: FloatValue)
    requires p <= |iter.input|
    reads iter
  {
    var e := NumberEnd(iter.input, p);
    var text := iter.input[p..e];
    if e < |iter.input| then
      && iter.Pos() == e
      && if SlowAccepts(iter, bits, text) then ret == Converted(text) && iter.err == NoError else iter.err == Other
    else
      && iter.err != NoError
      && 0 <= iter.Pos() <= |iter.input| && NumberEnd(iter.input, iter.Pos()) == |iter.input|
      && (!iter.fromReader ==>
            && iter.Pos() == e
            && if SlowAccepts(iter, bits, text) then iter.err == EOF && ret == Converted(text) else iter.err == Other)
  }

  /** The loop of the fast path behind the dot. */
  method FastFractionLoop(iter: Iterator, i0: int, value0: nat, bits: FloatBits) returns (f: FastFloat)
    requires iter.Valid() && iter.head <= i0 <= iter.tail
    ensures f == FastFraction(iter.input, iter.inputOffset + i0, iter.inputOffset + iter.tail, value0, 0, bits)
  {
    hide iter.BufferValid, iter.ReaderValid, iter.CapturedTo, Safe;
    var i, decimalPlaces := i0, 0;
    var value: nat := value0;
    ghost var limit := iter.inputOffset + iter.tail;
    while i < iter.tail
      invariant i0 <= i <= iter.tail && decimalPlaces >= 0
      invariant FastFraction(iter.input, iter.inputOffset + i0, limit, value0, 0, bits)
             == FastFraction(iter.input, iter.inputOffset + i, limit, value, decimalPlaces, bits)
    {
      iter.BufferAt(i);
      match FloatDigitOf(iter.buf[i]) {
        case EndOfNumber =>
          if decimalPlaces > 0 && decimalPlaces < POW10_COUNT {
            return Fast(value, decimalPlaces, iter.inputOffset + i);
          }
          return Slow;
        case InvalidChar => return Slow;
        case DotInNumber => return Slow;
        case Digit(ind) =>
          decimalPlaces := decimalPlaces + 1;
          if value > Safe(W64) {
            return Slow;
          }
          value := value * 10 + ind;
          if bits == F64 && value > MAX_FLOAT64 {
            return Slow;
          }
          i := i + 1;
      }
    }
    return Slow;
  }

  /** The loop of the fast path before the dot, and what follows it. */
  method FastWholeLoop(iter: Iterator, i0: int, value0: nat, bits: FloatBits) returns (f: FastFloat)
    requires iter.Valid() && iter.head <= i0 <= iter.tail
    ensures f == FastWhole(iter.input, iter.inputOffset + i0, iter.inputOffset + iter.tail, value0, bits)
  {
    hide iter.BufferValid, iter.ReaderValid, iter.CapturedTo, Safe;
    var i := i0;
    var value: nat := value0;
    ghost var limit := iter.inputOffset + iter.tail;
    while i < iter.tail
      invariant i0 <= i <= iter.tail
      invariant FastWhole(iter.input, iter.inputOffset + i0, limit, value0, bits)
             == FastWhole(iter.input, iter.inputOffset + i, limit, value, bits)
    {
      iter.BufferAt(i);
      match FloatDigitOf(iter.buf[i]) {
        case InvalidChar => return Slow;
        case EndOfNumber => return Fast(value, 0, iter.inputOffset + i);
        case DotInNumber =>
          f := FastFractionLoop(iter, i + 1, value, bits);
          return;
        case Digit(ind) =>
          if value > Safe(W64) {
            return Slow;
          }
          value := value * 10 + ind;
          i := i + 1;
      }
    }
    return Slow;
  }

  /** The fast path of `readPositiveFloat32` and `readPositiveFloat64`; it leaves `head` where it is. */
  method FastPath(iter: Iterator, bits: FloatBits) returns (f: FastFloat)
    requires iter.Valid()
    ensures f == FastFrom(iter.input, iter.Pos(), iter.inputOffset + iter.tail, bits)
  {
    hide iter.BufferValid, iter.ReaderValid, iter.CapturedTo;
    var i := iter.head;
    if i == iter.tail {
      return Slow;
    }
    iter.BufferAt(i);
    match FloatDigitOf(iter.buf[i]) {
      case InvalidChar => return Slow;
      case EndOfNumber => return Fault;
      case DotInNumber => return Fault;
      case Digit(ind) =>
        if ind == 0 {
          if i + 1 == iter.tail {
            return Slow;
          }
          iter.BufferAt(i + 1);
          if IsDigit(iter.buf[i + 1]) {
            return Fault;
          }
        }
        f := FastWholeLoop(iter, i + 1, ind, bits);
    }
  }

  /** The outcome of reading a positive float at `p` in a buffer that reaches to `limit`. */
  ghost predicate FloatResult(iter: Iterator, bits: FloatBits, p: nat, limit: nat, ret: FloatValue)
    requires p <= limit <= |iter.input|
    reads iter
  {
    match FastFrom(iter.input, p, limit, bits)
    case Fast(m, places, next) => ret == Rational(m, places) && iter.err == NoError && iter.Pos() == next
    case Fault => iter.err == Other && iter.Pos() == p
    case Slow => SlowResult(iter, bits, p, ret)
  }

  lemma {:induction false} FastFractionNext(s: seq<byte>, i: nat, limit: nat, v: nat, places: nat, bits: FloatBits)
    requires i <= limit <= |s|
    ensures var f := FastFraction(s, i, limit, v, places, bits); f.Fast? ==> i <= f.next < limit
    decreases limit - i
  {
    hide Safe;
    if i < limit && FloatDigitOf(s[i]).Digit? {
      FastFractionNext(s, i + 1, limit, v * 10 + (s[i] - ZERO), places + 1, bits);
    }
  }

  lemma {:induction false} FastWholeNext(s: seq<byte>, i: nat, limit: nat, v: nat, bits: FloatBits)
    requires i <= limit <= |s|
    ensures var f := FastWhole(s, i, limit, v, bits); f.Fast? ==> i <= f.next < limit
    decreases limit - i
  {
    hide Safe, FastFraction;
    if i < limit {
      if FloatDigitOf(s[i]).Digit? {
        FastWholeNext(s, i + 1, limit, v * 10 + (s[i] - ZERO), bits);
      } else if s[i] == DOT {
        FastFractionNext(s, i + 1, limit, v, 0, bits);
      }
    }
  }

  lemma FastNext(s: seq<byte>, i: nat, limit: nat, bits: FloatBits)
    requires i <= limit <= |s|
    ensures var f := FastFrom(s, i, limit, bits); f.Fast? ==> i < f.next < limit
  {
    hide FastWhole;
    if i < limit {
      FastWholeNext(s, i + 1, limit, if IsDigit(s[i]) then s[i] - ZERO else 0, bits);
    }
  }

  /** `readPositiveFloat32`, `readPositiveFloat64` */
  method ReadPositiveFloat(iter: Iterator, bits: FloatBits) returns (ret: FloatValue)
    requires iter.Valid()
    modifies iter, iter.buf
    ensures iter.Kept()
    ensures old(iter.err) == NoError ==>
              FloatResult(iter, bits, old(iter.Pos()), old(iter.inputOffset + iter.tail), ret)
    ensures old(iter.err) == NoError ==>
              FastFrom(iter.input, old(iter.Pos()), old(iter.inputOffset + iter.tail), bits).Fault? ==>
                iter.captureIntact == old(iter.captureIntact)
  {
    hide iter.BufferValid, iter.ReaderValid, iter.CapturedTo, FastFrom, SlowResult;
    var f := FastPath(iter, bits);
    FastNext(iter.input, iter.Pos(), iter.inputOffset + iter.tail, bits);
    match f {
      case Fast(m, places, next) =>
        iter.head := next - iter.inputOffset;
        ret := Rational(m, places);
      case Fault =>
        iter.ReportError();
        ret := NoValue;
      case Slow =>
        ret := ReadFloatSlowPath(iter, bits);
    }
  }

  /** `ReadFloat32`, `ReadFloat64`: the sign and the magnitude. */
  method ReadFloat(iter: Iterator, bits: FloatBits) returns (negative: bool, ret: FloatValue)
    requires iter.Valid()
    modifies iter, iter.buf
    ensures iter.Kept()
    ensures old(iter.err) == NoError ==>
              var j := SkipWhitespace(iter.input, old(iter.Pos()));
              j < |iter.input| ==>
                var k := if iter.input[j] == MINUS then j + 1 else j;
                var limit := BufferEnd(iter.input, iter.chunks, j);
                && negative == (iter.input[j] == MINUS)
                && FloatResult(iter, bits, k, limit, ret)
                && (FastFrom(iter.input, k, limit, bits).Fault? ==> iter.captureIntact == old(iter.captureIntact))
  {
    hide iter.BufferValid, iter.ReaderValid, iter.CapturedTo, FloatResult, FastFrom;
    var c := iter.NextToken();
    if SkipWhitespace(iter.input, old(iter.Pos())) < |iter.input| {
      iter.BufferEndHere(iter.Pos() - 1);
    }
    if c == MINUS {
      ret := ReadPositiveFloat(iter, bits);
      return true, ret;
    }
    iter.UnreadByte();
    ret := ReadPositiveFloat(iter, bits);
    return false, ret;
  }

  /** The state `ReadBigFloat` leaves when it began at `p`. */
  ghost predicate BigResult(iter: Iterator, p: nat)
    requires p <= |iter.input|
    reads iter
  {
    var e := NumberEnd(iter.input, p);
    var accepted := e > p && iter.parsers.acceptsBig(iter.input[p..e]);
    && (e < |iter.input| ==> iter.Pos() == e && iter.err == if accepted then NoError else Other)
    && (e == |iter.input| ==>
          && iter.err != NoError && 0 <= iter.Pos() <= |iter.input|
          && NumberEnd(iter.input, iter.Pos()) == |iter.input|)
    && (e == |iter.input| && !iter.fromReader ==> iter.Pos() == e && iter.err == if accepted then EOF else Other)
  }

  /** `ReadBigFloat`, as far as its errors go. */
  method ReadBigFloat(iter: Iterator)
    requires iter.Valid()
    modifies iter, iter.buf
    ensures iter.Kept()
    ensures old(iter.err) == NoError ==> BigResult(iter, old(iter.Pos()))
  {
    hide iter.BufferValid, iter.ReaderValid, iter.CapturedTo, NumberEnd;
    ghost var p := iter.Pos();
    var str := ReadNumberAsBytes(iter, []);
    assert [] + iter.input[p..NumberEnd(iter.input, p)] == iter.input[p..NumberEnd(iter.input, p)];
    if iter.err != NoError && iter.err != EOF {
      return;
    }
    if !iter.parsers.acceptsBig(str) {
      iter.err := Other;
    }
  }
}

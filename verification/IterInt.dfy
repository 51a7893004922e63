/** iter_int.go: the integer readers. */
module IterInt {
  import opened Bytes
  import opened Decimals
  import opened IntMachines
  import opened IterCore

  const INVALID_CHAR := -1

  /** An entry of `intDigits` */
  function IntDigit(c: byte): int {
    if IsDigit(c) then c - ZERO else INVALID_CHAR
  }

  /** `init`: the table is filled with the invalid mark, then the digits are set. */
  method InitIntDigits() returns (intDigits: array<int>)
    ensures fresh(intDigits) && intDigits.Length == 256
    ensures forall c: byte :: intDigits[c] == IntDigit(c)
  {
    intDigits := new int[256];
    var i := 0;
    while i < intDigits.Length
      invariant 0 <= i <= 256
      invariant forall k :: 0 <= k < i ==> intDigits[k] == INVALID_CHAR
    {
      intDigits[i] := INVALID_CHAR;
      i := i + 1;
    }
    i := ZERO;
    while i <= NINE
      invariant ZERO <= i <= NINE + 1
      invariant forall k :: 0 <= k < 256 ==> intDigits[k] == if ZERO <= k < i then k - ZERO else INVALID_CHAR
    {
      intDigits[i] := i - ZERO;
      i := i + 1;
    }
  }

  /** What a reader returned and left behind is the outcome `r` of reading an integer. */
  ghost predicate Returned(iter: Iterator, ret: int, r: IntRead)
    reads iter
  {
    match r
    case IntOk(v, next) =>
      && ret == v
      && (next < |iter.input| ==> iter.err == NoError && iter.Pos() == next)
      && (next == |iter.input| ==>
            && (iter.err == NoError || iter.err == iter.Exhausted(NoError))
            && (!iter.fromReader ==> iter.Pos() == next))
    case Overflow => iter.err == Other
    case NotInteger => iter.err == Other
    case DotAfterZero(next) =>
      && ret == 0 && iter.Pos() == next && 0 < next <= |iter.input|
      && iter.err == if next < BufferEnd(iter.input, iter.chunks, next - 1) then Other else NoError
  }

  /** `assertInteger` */
  method AssertInteger(iter: Iterator)
    requires iter.Valid()
    modifies iter`err
    ensures iter.err == if iter.head < iter.tail && iter.input[iter.Pos()] == DOT then Other else old(iter.err)
  {
    if iter.head < iter.tail {
      iter.BufferAt(iter.head);
      if iter.buf[iter.head] == DOT {
        iter.ReportError();
      }
    }
  }

  lemma LoopDigit(s: seq<byte>, i: nat, v: nat, w: Width)
    requires i < |s| && IsDigit(s[i]) && v <= Safe(w)
    ensures DigitLoop(s, i, v, w) == DigitLoop(s, i + 1, v * 10 + (s[i] - ZERO), w)
  {
    Times10PlusIs(v, s[i] - ZERO, w);
  }

  lemma LoopStop(s: seq<byte>, i: nat, v: nat, w: Width)
    requires i <= |s| && (i < |s| ==> !IsDigit(s[i]))
    ensures DigitLoop(s, i, v, w) == if i < |s| && s[i] == DOT then NotInteger else IntOk(v, i)
  {
  }

  /** `iter.head = i; iter.assertInteger(); return value` in front of a byte that is no digit. */
  method StopAt(iter: Iterator, i: int, value: nat, w: Width) returns (ret: nat)
    requires iter.Valid() && iter.head <= i < iter.tail && iter.err == NoError
    requires !IsDigit(iter.buf[i])
    modifies iter`head, iter`err
    ensures iter.Valid() && iter.head == i && (iter.err == NoError || iter.err == Other)
    ensures Returned(iter, ret, DigitLoop(iter.input, old(iter.inputOffset + i), value, w))
  {
    hide iter.BufferValid, iter.ReaderValid, iter.CapturedTo, DigitLoop;
    iter.BufferAt(i);
    LoopStop(iter.input, iter.inputOffset + i, value, w);
    iter.head := i;
    AssertInteger(iter);
    ret := value;
  }

  /** The unrolled steps of `readUint32` and `readUint64`, when more than ten bytes are buffered. */
  method ReadUnrolled(iter: Iterator, value: nat, w: Width) returns (ret: nat, done: bool)
    requires iter.Valid() && iter.err == NoError && iter.tail - iter.head > 10 && value < 10
    modifies iter`head, iter`err
    ensures iter.Valid() && old(iter.head) <= iter.head && (iter.err == NoError || iter.err == Other)
    ensures done ==> Returned(iter, ret, DigitLoop(iter.input, old(iter.Pos()), value, w))
    ensures !done ==> iter.err == NoError && ret < 100000000
    ensures !done ==> DigitLoop(iter.input, old(iter.Pos()), value, w) == DigitLoop(iter.input, iter.Pos(), ret, w)
  {
    hide iter.BufferValid, iter.ReaderValid, iter.CapturedTo, DigitLoop, Safe, Modulus, Returned;
    SafeIsBig(w);
    ghost var p := iter.Pos();
    var i := iter.head;
    iter.BufferAt(i);
    var ind2 := IntDigit(iter.buf[i]);
    if ind2 == INVALID_CHAR {
      ret := StopAt(iter, i, value, w);
      return ret, true;
    }
    LoopDigit(iter.input, p, value, w);
    i := i + 1;
    iter.BufferAt(i);
    var ind3 := IntDigit(iter.buf[i]);
    if ind3 == INVALID_CHAR {
      ret := StopAt(iter, i, value * 10 + ind2, w);
      return ret, true;
    }
    LoopDigit(iter.input, p + 1, value * 10 + ind2, w);
    i := i + 1;
    iter.BufferAt(i);
    var ind4 := IntDigit(iter.buf[i]);
    if ind4 == INVALID_CHAR {
      ret := StopAt(iter, i, value * 100 + ind2 * 10 + ind3, w);
      return ret, true;
    }
    LoopDigit(iter.input, p + 2, value * 100 + ind2 * 10 + ind3, w);
    i := i + 1;
    iter.BufferAt(i);
    var ind5 := IntDigit(iter.buf[i]);
    if ind5 == INVALID_CHAR {
      ret := StopAt(iter, i, value * 1000 + ind2 * 100 + ind3 * 10 + ind4, w);
      return ret, true;
    }
    LoopDigit(iter.input, p + 3, value * 1000 + ind2 * 100 + ind3 * 10 + ind4, w);
    i := i + 1;
    var value4 := value * 10000 + ind2 * 1000 + ind3 * 100 + ind4 * 10 + ind5;
    ret, done := ReadUnrolledRest(iter, i, value4, w);
  }

  lemma SafeIsBig(w: Width)
    ensures 100000000 <= Safe(w)
  {
  }

  /** The second half of the unrolled steps; `value` holds the first five digits. */
  method ReadUnrolledRest(iter: Iterator, i0: int, value: nat, w: Width) returns (ret: nat, done: bool)
    requires iter.Valid() && iter.err == NoError && iter.head <= i0 && i0 + 4 < iter.tail && value < 100000
    modifies iter`head, iter`err
    ensures iter.Valid() && i0 <= iter.head && (iter.err == NoError || iter.err == Other)
    ensures done ==> Returned(iter, ret, DigitLoop(iter.input, iter.inputOffset + i0, value, w))
    ensures !done ==> iter.err == NoError && ret < 100000000
    ensures !done ==>
              DigitLoop(iter.input, iter.inputOffset + i0, value, w) == DigitLoop(iter.input, iter.Pos(), ret, w)
  {
    hide iter.BufferValid, iter.ReaderValid, iter.CapturedTo, DigitLoop, Safe, Modulus, Returned;
    SafeIsBig(w);
    ghost var p := iter.inputOffset + i0;
    var i := i0;
    iter.BufferAt(i);
    var ind6 := IntDigit(iter.buf[i]);
    if ind6 == INVALID_CHAR {
      ret := StopAt(iter, i, value, w);
      return ret, true;
    }
    LoopDigit(iter.input, p, value, w);
    i := i + 1;
    iter.BufferAt(i);
    var ind7 := IntDigit(iter.buf[i]);
    if ind7 == INVALID_CHAR {
      ret := StopAt(iter, i, value * 10 + ind6, w);
      return ret, true;
    }
    LoopDigit(iter.input, p + 1, value * 10 + ind6, w);
    i := i + 1;
    iter.BufferAt(i);
    var ind8 := IntDigit(iter.buf[i]);
    if ind8 == INVALID_CHAR {
      ret := StopAt(iter, i, value * 100 + ind6 * 10 + ind7, w);
      return ret, true;
    }
    LoopDigit(iter.input, p + 2, value * 100 + ind6 * 10 + ind7, w);
    i := i + 1;
    iter.BufferAt(i);
    var ind9 := IntDigit(iter.buf[i]);
    var value8 := value * 1000 + ind6 * 100 + ind7 * 10 + ind8;
    iter.head := i;
    if ind9 == INVALID_CHAR {
      ret := StopAt(iter, i, value8, w);
      return ret, true;
    }
    return value8, false;
  }

  /** The digit loop over one buffer, up to the index where it stops. */
  method ScanDigits(iter: Iterator, value: nat, w: Width) returns (i: int, value': nat, overflow: bool)
    requires iter.Valid() && value < Modulus(w)
    ensures iter.head <= i <= iter.tail && value' < Modulus(w)
    ensures overflow ==> DigitLoop(iter.input, iter.Pos(), value, w) == Overflow
    ensures !overflow ==>
              && DigitLoop(iter.input, iter.Pos(), value, w) == DigitLoop(iter.input, iter.inputOffset + i, value', w)
              && (i < iter.tail ==> !IsDigit(iter.buf[i]))
              && (i > iter.head ==> IsDigit(iter.input[iter.Pos()]))
  {
    hide iter.BufferValid, iter.ReaderValid, iter.CapturedTo, Times10Plus, Safe;
    i, value', overflow := iter.head, value, false;
    while i < iter.tail
      invariant iter.head <= i <= iter.tail && value' < Modulus(w)
      invariant DigitLoop(iter.input, iter.Pos(), value, w) == DigitLoop(iter.input, iter.inputOffset + i, value', w)
      invariant i > iter.head ==> IsDigit(iter.input[iter.Pos()])
    {
      iter.BufferAt(i);
      var ind := IntDigit(iter.buf[i]);
      if ind == INVALID_CHAR {
        return;
      }
      var value2 := Times10Plus(value', ind, w);
      Times10PlusIs(value', ind, w);
      if value' > Safe(w) {
        if value2 < value' {
          return i, value', true;
        }
      }
      value' := value2;
      i := i + 1;
    }
  }

  /** The outer loop of `readUint32` and `readUint64`. */
  method ReadDigits(iter: Iterator, value: nat, w: Width) returns (ret: nat)
    requires iter.Valid() && iter.err == NoError && value < Modulus(w)
    modifies iter, iter.buf
    ensures iter.Kept()
    ensures Returned(iter, ret, DigitLoop(iter.input, old(iter.Pos()), value, w))
  {
    hide iter.BufferValid, iter.ReaderValid, iter.CapturedTo, DigitLoop, Modulus;
    ghost var r := DigitLoop(iter.input, iter.Pos(), value, w);
    ret := value;
    while true
      invariant iter.Kept() && iter.err == NoError && ret < Modulus(w)
      invariant r == DigitLoop(iter.input, iter.Pos(), ret, w)
      decreases |iter.input| - iter.inputOffset - iter.tail
    {
      var i, value', overflow := ScanDigits(iter, ret, w);
      if overflow {
        iter.ReportError();
        return 0;
      }
      ret := value';
      if i < iter.tail {
        ret := StopAt(iter, i, ret, w);
        return;
      }
      var more := LoadOrStop(iter, ret, w);
      if !more {
        return;
      }
    }
  }

  /** `if !iter.loadMore() { iter.assertInteger(); return value }` */
  method LoadOrStop(iter: Iterator, value: nat, w: Width) returns (more: bool)
    requires iter.Valid() && iter.err == NoError
    requires iter.head < iter.tail ==> IsDigit(iter.input[iter.Pos()])
    modifies iter, iter.buf
    ensures iter.Kept()
    ensures more ==> iter.err == NoError && iter.Pos() == old(iter.inputOffset + iter.tail)
    ensures more ==> iter.inputOffset + iter.tail > old(iter.inputOffset + iter.tail)
    ensures !more ==> Returned(iter, value, DigitLoop(iter.input, old(iter.inputOffset + iter.tail), value, w))
  {
    hide iter.BufferValid, iter.ReaderValid, iter.CapturedTo, DigitLoop;
    LoopStopAtEnd(iter.input, value, w);
    more := iter.LoadMore();
    if !more {
      AssertInteger(iter);
    }
  }

  lemma LoopStopAtEnd(s: seq<byte>, v: nat, w: Width)
    ensures DigitLoop(s, |s|, v, w) == IntOk(v, |s|)
  {
  }

  /**
   * `readUint32` and `readUint64`, on any buffering. A single zero followed by a dot is refused exactly when
   * the dot is in the buffer already.
   */
  method ReadUint(iter: Iterator, c: byte, w: Width) returns (ret: nat)
    requires iter.Valid() && (IsDigit(c) ==> iter.err == NoError && iter.head > 0)
    modifies iter, iter.buf
    ensures iter.Kept()
    ensures Returned(iter, ret, UintFrom(c, iter.input, old(iter.Pos()), w))
  {
    hide iter.BufferValid, iter.ReaderValid, iter.CapturedTo, DigitLoop, Safe;
    var ind := IntDigit(c);
    if ind == 0 {
      iter.BufferEndHere(iter.Pos() - 1);
      AssertInteger(iter);
      return 0;
    }
    if ind == INVALID_CHAR {
      iter.ReportError();
      return 0;
    }
    var value: nat := ind;
    if iter.tail - iter.head > 10 {
      var done;
      value, done := ReadUnrolled(iter, value, w);
      if done {
        return value;
      }
    }
    ret := ReadDigits(iter, value, w);
  }

  /** `ReadUint8` to `ReadUint64`: `max` is the greatest value of the type. */
  method ReadUnsigned(iter: Iterator, max: nat, w: Width) returns (ret: int)
    requires iter.Valid() && iter.err == NoError
    modifies iter, iter.buf
    ensures iter.Kept()
    ensures Returned(iter, ret, UnsignedAt(iter.input, old(iter.Pos()), max, w))
  {
    hide iter.BufferValid, iter.ReaderValid, iter.CapturedTo, DigitLoop;
    var c := iter.NextToken();
    var val := ReadUint(iter, c, w);
    if val > max {
      iter.ReportError();
      return 0;
    }
    ret := val;
  }

  /** The conversion of `val` to a signed type whose values are `-half` to `half - 1`; it wraps around once. */
  function ToSigned(val: int, half: int): int
    requires -2 * half <= val < 2 * half
  {
    if val >= half then val - 2 * half else if val < -half then val + 2 * half else val
  }

  /** The branch of `ReadInt8` to `ReadInt64` behind a minus sign. */
  method ReadNegative(iter: Iterator, max: nat, w: Width) returns (ret: int)
    requires iter.Valid() && iter.err == NoError
    modifies iter, iter.buf
    ensures iter.Kept()
    ensures Returned(iter, ret, NegativeAt(iter.input, old(iter.Pos()), max, w))
  {
    hide iter.BufferValid, iter.ReaderValid, iter.CapturedTo, DigitLoop;
    var c2 := iter.ReadByte();
    var val := ReadUint(iter, c2, w);
    if val > max + 1 {
      iter.ReportError();
      return 0;
    }
    // `-int8(val)`: for the minimum value both steps wrap around
    return ToSigned(-ToSigned(val, max + 1), max + 1);
  }

  /** `ReadInt8` to `ReadInt64`: `max` is the greatest value of the type. */
  method ReadSigned(iter: Iterator, max: nat, w: Width) returns (ret: int)
    requires iter.Valid() && iter.err == NoError
    modifies iter, iter.buf
    ensures iter.Kept()
    ensures Returned(iter, ret, SignedAt(iter.input, old(iter.Pos()), max, w))
  {
    hide iter.BufferValid, iter.ReaderValid, iter.CapturedTo, DigitLoop, NegativeAt;
    var c := iter.NextToken();
    if c == MINUS {
      ret := ReadNegative(iter, max, w);
      return;
    }
    var val := ReadUint(iter, c, w);
    if val > max {
      iter.ReportError();
      return 0;
    }
    ret := val;
  }

  // ---------- A zero with a dot behind it ----------

  /** In a flat buffer the dot is always there. */
  lemma FlatZeroDot(iter: Iterator, ret: int, next: nat)
    requires iter.Valid() && !iter.fromReader && next < |iter.input|
    requires Returned(iter, ret, DotAfterZero(next))
    ensures iter.err == Other
  {
  }

  /** `0.5,` */
  const ZERO_DOT: seq<byte> := [ZERO, DOT, 0x35, COMMA]

  /** `0.5,` in one chunk is refused as an integer; split behind the zero it is read as 0. */
  method ZeroDotSplit(parsers: FloatParsers) returns (one: Error, two: Error, ret: int, offset: int)
    ensures one == Other
    ensures two == NoError && ret == 0 && offset == 1
  {
    ret, one, offset := ReadZeroDot([ZERO_DOT], parsers);
    ret, two, offset := ReadZeroDot([[ZERO], [DOT, 0x35, COMMA]], parsers);
  }

  /** `ReadUint32` at the start of that input; the first chunk decides. */
  method ReadZeroDot(chunks: seq<seq<byte>>, parsers: FloatParsers) returns (ret: int, err: Error, offset: int)
    requires chunks == [ZERO_DOT] || chunks == [[ZERO], [DOT, 0x35, COMMA]]
    ensures err == (if |chunks| == 1 then Other else NoError) && ret == 0 && offset == 1
  {
    hide UnsignedAt;
    ZeroDot(Flatten(chunks), chunks);
    var iter := new Iterator.Parse(chunks, EOF, 4, parsers);
    ret := ReadUnsigned(iter, 0xFFFF_FFFF, W32);
    err := iter.err;
    offset := iter.InputOffset();
  }

  lemma ZeroDot(s: seq<byte>, chunks: seq<seq<byte>>)
    requires s == Flatten(chunks)
    requires chunks == [ZERO_DOT] || chunks == [[ZERO], [DOT, 0x35, COMMA]]
    ensures s == ZERO_DOT && UnsignedAt(s, 0, 0xFFFF_FFFF, W32) == DotAfterZero(1)
    ensures BufferEnd(s, chunks, 0) == if |chunks| == 1 then 4 else 1
    ensures forall c :: c in chunks ==> |c| <= 4
  {
    assert Flatten(chunks[1..]) == if |chunks| == 1 then [] else [DOT, 0x35, COMMA];
    assert ChunkEnd(0, chunks, 0) == ChunkEnd(|chunks[0]|, chunks[1..], 0) == |chunks[0]|;
    SkipNothing(s, 0);
  }
}

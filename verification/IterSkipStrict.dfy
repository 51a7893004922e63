/** iter_skip_strict.go: skipping a number or a string. */
module IterSkipStrict {
  import opened Bytes
  import opened StringMachines
  import opened FloatMachines
  import opened NumberTheorems
  import opened NumberSkips
  import opened IterCore
  import opened IterStr
  import opened IterFloat

  // ---------- Numbers ----------

  /** The loop of `trySkipNumber`. */
  method TrySkipLoop(iter: Iterator) returns (r: TrySkip)
    requires iter.Valid()
    ensures r == TrySkipFrom(iter.input, iter.Pos(), iter.Pos(), iter.inputOffset + iter.tail, false)
  {
    hide iter.BufferValid, iter.ReaderValid, iter.CapturedTo;
    var dotFound := false;
    var i := iter.head;
    ghost var p, limit := iter.Pos(), iter.inputOffset + iter.tail;
    while i < iter.tail
      invariant iter.head <= i <= iter.tail
      invariant TrySkipFrom(iter.input, p, p, limit, false)
             == TrySkipFrom(iter.input, p, iter.inputOffset + i, limit, dotFound)
    {
      iter.BufferAt(i);
      var c := iter.buf[i];
      if IsDigit(c) {
      } else if c == DOT {
        if dotFound {
          return TrySkip.Failed;
        }
        if i + 1 == iter.tail {
          return Undecided;
        }
        iter.BufferAt(i + 1);
        if !IsDigit(iter.buf[i + 1]) {
          return TrySkip.Failed;
        }
        dotFound := true;
      } else if IsDelimiter(c) {
        if iter.head == i {
          return Undecided; // one character only
        }
        return Skipped(iter.inputOffset + i);
      } else {
        return Undecided; // the float reader has to look at it
      }
      i := i + 1;
    }
    return Undecided;
  }

  /** `trySkipNumber` */
  method TrySkipNumber(iter: Iterator) returns (decided: bool)
    requires iter.Valid()
    modifies iter`head, iter`err
    ensures iter.Kept()
    ensures match TrySkipFrom(iter.input, old(iter.Pos()), old(iter.Pos()), iter.inputOffset + iter.tail, false)
      case Skipped(next) => decided && iter.Pos() == next && iter.err == old(iter.err)
      case Failed => decided && iter.err == Other && iter.head == old(iter.head)
      case Undecided => !decided && iter.err == old(iter.err) && iter.head == old(iter.head)
  {
    hide iter.BufferValid, iter.ReaderValid, iter.CapturedTo, TrySkipFrom;
    var r := TrySkipLoop(iter);
    TrySkipNext(iter.input, iter.Pos(), iter.Pos(), iter.inputOffset + iter.tail, false);
    match r {
      case Skipped(next) =>
        iter.head := next - iter.inputOffset;
        decided := true;
      case Failed =>
        iter.ReportError();
        decided := true;
      case Undecided =>
        decided := false;
    }
  }

  lemma {:induction false} TrySkipNext(s: seq<byte>, head: nat, i: nat, limit: nat, dotFound: bool)
    requires head <= i <= limit <= |s|
    ensures var r := TrySkipFrom(s, head, i, limit, dotFound); r.Skipped? ==> i <= r.next < limit
    decreases limit - i
  {
    if i < limit {
      if IsDigit(s[i]) {
        TrySkipNext(s, head, i + 1, limit, dotFound);
      } else if s[i] == DOT && !dotFound && i + 1 < limit && IsDigit(s[i + 1]) {
        TrySkipNext(s, head, i + 1, limit, true);
      }
    }
  }

  /** An error behind a number that ends the input; a reader's cursor may stay behind in that number. */
  ghost predicate Cut(iter: Iterator)
    reads iter
  {
    iter.err != NoError && 0 <= iter.Pos() <= |iter.input| && NumberEnd(iter.input, iter.Pos()) == |iter.input|
  }

  /** What skipping a number leaves. */
  ghost predicate SkipLeaves(iter: Iterator, r: NumberSkip, intact: bool)
    reads iter
  {
    match r
    case Stops(next) => iter.err == NoError && iter.Pos() == next && iter.captureIntact == intact
    case Ends => Cut(iter) && (!iter.fromReader ==> iter.err == EOF && iter.Pos() == |iter.input|)
    case Refused => iter.err == Other || (iter.fromReader && Cut(iter))
  }

  /** A float reader used for skipping. */
  lemma FloatLeaves(iter: Iterator, k: nat, limit: nat, bits: FloatBits, ret: FloatValue, intact: bool)
    requires k <= limit <= |iter.input| && FloatResult(iter, bits, k, limit, ret)
    requires iter.err == NoError ==> iter.captureIntact == intact
    ensures SkipLeaves(iter, FloatAt(iter.input, k, limit, bits, iter.parsers), intact)
    ensures FastFrom(iter.input, k, limit, bits).Fault? ==> iter.err == Other
  {
    hide FastFrom, NumberEnd, ValidatePositiveFloat;
  }

  /** Where a failed float reader leaves the cursor. */
  lemma FailedFloat(iter: Iterator, k: nat, limit: nat, ret: FloatValue)
    requires k <= limit <= |iter.input| && FloatResult(iter, F64, k, limit, ret) && iter.err == Other
    ensures FastFrom(iter.input, k, limit, F64).Fault? ==> iter.Pos() == k
    ensures !FastFrom(iter.input, k, limit, F64).Fault? ==>
              && 0 <= iter.Pos() <= |iter.input|
              && !FloatAt(iter.input, k, limit, F64, iter.parsers).Stops?
              && (!iter.fromReader ==> FloatAt(iter.input, k, limit, F64, iter.parsers).Refused?)
              && NumberEnd(iter.input, iter.Pos()) ==
                 (if NumberEnd(iter.input, k) < |iter.input| then iter.Pos() else |iter.input|)
              && (NumberEnd(iter.input, k) < |iter.input| ==>
                    FloatAt(iter.input, k, limit, F64, iter.parsers).Refused?)
              && (!iter.fromReader ==> iter.Pos() == NumberEnd(iter.input, k))
  {
    hide FastFrom, NumberEnd, ValidatePositiveFloat;
    NumberEndTwice(iter.input, k);
  }

  /** `ReadBigFloat` where the fast path has failed. */
  lemma BigLeaves(iter: Iterator, k: nat, intact: bool)
    requires k <= |iter.input| && BigResult(iter, k)
    requires iter.err == NoError ==> iter.captureIntact == intact
    ensures SkipLeaves(iter, BigAt(iter.input, k, iter.parsers), intact)
  {
    hide NumberEnd;
  }

  /** `ReadBigFloat` where the slow path has failed: it finds no number, or the end of the input again. */
  lemma BigFails(iter: Iterator, p: nat)
    requires p <= |iter.input| && BigResult(iter, p)
    requires NumberEnd(iter.input, p) == p || NumberEnd(iter.input, p) == |iter.input|
    ensures p == NumberEnd(iter.input, p) && (p < |iter.input| || !iter.fromReader) ==> iter.err == Other
    ensures NumberEnd(iter.input, p) == |iter.input| ==> Cut(iter)
  {
    hide NumberEnd;
  }

  /** `skipNumber`, on any buffering; the first character of the number is consumed. */
  method SkipNumber(iter: Iterator)
    requires iter.Valid() && iter.Pos() > 0 && !IsWhitespace(iter.input[iter.Pos() - 1])
    requires iter.err == NoError ==> iter.CanUnread()
    modifies iter, iter.buf
    ensures iter.AdvancedFrom(old(iter.Pos()) - 1) && iter.depth == old(iter.depth)
    ensures old(iter.err) == NoError ==>
              var i := old(iter.Pos()) - 1;
              SkipLeaves(iter, SkippedNumber(iter.input, i, BufferEnd(iter.input, iter.chunks, i), iter.parsers),
                         old(iter.captureIntact))
  {
    hide iter.BufferValid, iter.ReaderValid, iter.CapturedTo, TrySkipFrom, FloatNumber, BufferEnd, Cut;
    ghost var i := iter.Pos() - 1;
    if iter.err == NoError {
      iter.BufferEndHere(i);
    }
    var decided := TrySkipNumber(iter);
    if !decided {
      iter.UnreadByte();
      if iter.err != NoError && iter.err != EOF {
        return;
      }
      SkipWithReadFloat(iter, i);
    }
  }

  /** The part of `skipNumber` that reads the number at position `i` as a float. */
  method SkipWithReadFloat(iter: Iterator, ghost i: nat)
    requires iter.Valid() && i <= iter.Pos() && iter.err != Other
    requires iter.err == NoError ==> iter.Pos() == i < |iter.input| && !IsWhitespace(iter.input[i])
    modifies iter, iter.buf
    ensures iter.AdvancedFrom(i) && iter.depth == old(iter.depth)
    ensures old(iter.err) == NoError ==>
              SkipLeaves(iter, FloatNumber(iter.input, i, BufferEnd(iter.input, iter.chunks, i), iter.parsers),
                         old(iter.captureIntact))
  {
    hide iter.BufferValid, iter.ReaderValid, iter.CapturedTo, FloatResult, FastFrom, FloatAt, BigAt, NumberEnd,
         BufferEnd, BigResult, Cut, SkipWhitespace, IsWhitespace, IsDigit;
    var negative, ret := ReadFloat(iter, F64);
    ghost var good := old(iter.err) == NoError;
    ghost var k, limit := Unsigned(iter.input, i), 0;
    if good {
      SkipNothing(iter.input, i);
      limit := BufferEnd(iter.input, iter.chunks, i);
      FloatLeaves(iter, k, limit, F64, ret, old(iter.captureIntact));
      FaultLeaves(iter.input, k, limit, iter.parsers);
    }
    if iter.err != NoError && iter.err != EOF {
      ghost var p := iter.Pos();
      ghost var faulty := good && FastFrom(iter.input, k, limit, F64).Fault?;
      if good {
        FailedFloat(iter, k, limit, ret);
      }
      iter.err := NoError;
      ReadBigFloat(iter);
      if faulty {
        BigLeaves(iter, k, old(iter.captureIntact));
      } else if good {
        BigFails(iter, p);
      }
    }
  }

  lemma NumberEndTwice(s: seq<byte>, k: nat)
    requires k <= |s|
    ensures NumberEnd(s, NumberEnd(s, k)) == NumberEnd(s, k)
  {
    NumberEndHere(s, NumberEnd(s, k));
  }

  lemma FaultLeaves(s: seq<byte>, k: nat, limit: nat, parsers: FloatParsers)
    requires k <= limit <= |s|
    ensures FastFrom(s, k, limit, F64).Fault? ==> FloatAt(s, k, limit, F64, parsers) == Refused
  {
    hide FastFrom;
  }

  // ---------- Strings ----------

  lemma {:induction false} RawPlainRun(s: seq<byte>, i: nat, j: nat)
    requires i <= j <= |s|
    requires forall k :: i <= k < j ==> IsPlain(s[k])
    ensures RawEnd(s, i) == RawEnd(s, j)
    decreases j - i
  {
    if i < j {
      RawPlainRun(s, i + 1, j);
    }
  }

  /** `skipString`: the fast scan, and raw reading from where it stops. */
  method SkipString(iter: Iterator)
    requires iter.Valid()
    modifies iter, iter.buf
    ensures iter.Kept()
    ensures old(iter.err) == NoError ==>
              match RawEnd(iter.input, old(iter.Pos()))
              case Some(end) => iter.Pos() == end && iter.err == NoError
              case None => iter.err == Other
  {
    hide iter.BufferValid, iter.ReaderValid, iter.CapturedTo, RawEnd;
    var i := ScanPlain(iter);
    ghost var p, q := iter.Pos(), iter.inputOffset + i;
    if i < iter.tail {
      RawPlainRun(iter.input, p, q);
      if iter.buf[i] == QUOTE {
        RawEndAtQuote(iter.input, q);
        iter.head := i + 1;
        return;
      }
      iter.head := i;
    }
    var rs := ReadRawStringInner(iter);
  }

  lemma RawEndAtQuote(s: seq<byte>, i: nat)
    requires i < |s| && s[i] == QUOTE
    ensures RawEnd(s, i) == Some(i + 1)
  {
  }
}

/** iter_skip_sloppy.go: skipping without validation. */
module IterSkipSloppy {
  import opened Bytes
  import opened StringMachines
  import opened FloatMachines
  import opened IterCore
  import opened NumberSkips
  import opened Literals
  import opened ValueMachines
  import opened SloppyMachines
  import Containers

  // ---------- Strings ----------

  /**
   * The backward loops of `findStringEnd`: whether an odd number of backslashes stands before index `x`, looking
   * back to `head` at most.
   */
  method OddBackslashes(iter: Iterator, x: int) returns (odd: bool)
    requires iter.Valid() && iter.head <= x <= iter.tail
    ensures odd == (BackslashRun(iter.input, iter.Pos(), iter.inputOffset + x) % 2 == 1)
  {
    hide iter.BufferValid, iter.ReaderValid, iter.CapturedTo;
    ghost var lo, p := iter.Pos(), iter.inputOffset;
    var j := x - 1;
    while true
      invariant iter.head - 1 <= j < x
      invariant (x - 1 - j) % 2 == 0
      invariant BackslashRun(iter.input, lo, p + x) == (x - 1 - j) + BackslashRun(iter.input, lo, p + j + 1)
      decreases j
    {
      if j >= iter.head {
        iter.BufferAt(j);
      }
      if j < iter.head || iter.buf[j] != BACKSLASH {
        return false;
      }
      j := j - 1;
      if j >= iter.head {
        iter.BufferAt(j);
      }
      if j < iter.head || iter.buf[j] != BACKSLASH {
        return true;
      }
      j := j - 1;
    }
  }

  /**
   * `findStringEnd`: the index past the first quote in the buffer that ends the string, or -1 and whether the
   * buffer ends inside an escape.
   */
  method FindStringEnd(iter: Iterator) returns (end: int, escaped: bool)
    requires iter.Valid()
    ensures end == -1 || iter.head < end <= iter.tail
    ensures end != -1 ==> StringEnd(iter.input, iter.Pos()) == Some(iter.inputOffset + end)
    ensures end == -1 ==>
              StringEnd(iter.input, iter.Pos()) ==
              StringEnd(iter.input, iter.inputOffset + iter.tail + if escaped then 1 else 0)
  {
    hide iter.BufferValid, iter.ReaderValid, iter.CapturedTo, StringEnd, Escaped;
    ghost var lo := iter.Pos();
    escaped := false;
    var i := iter.head;
    while i < iter.tail
      invariant iter.head <= i <= iter.tail
      invariant NoQuoteEnds(iter.input, lo, iter.inputOffset + i)
      invariant !escaped ==> forall k :: lo <= k < iter.inputOffset + i ==> iter.input[k] != BACKSLASH
    {
      ghost var q := iter.inputOffset + i;
      iter.BufferAt(i);
      var c := iter.buf[i];
      if c == QUOTE {
        StringEndFrom(iter.input, lo, q);
        StringEndAtQuote(iter.input, q);
        if !escaped {
          NoBackslashNoEscape(iter.input, lo, q);
          return i + 1, false;
        }
        var odd := OddBackslashes(iter, i);
        ParityIsEscaped(iter.input, lo, q);
        if !odd {
          return i + 1, true;
        }
      } else if c == BACKSLASH {
        escaped := true;
      }
      i := i + 1;
    }
    var odd := OddBackslashes(iter, iter.tail);
    ParityIsEscaped(iter.input, lo, iter.inputOffset + iter.tail);
    StringEndFrom(iter.input, lo, iter.inputOffset + iter.tail);
    return -1, odd;
  }

  lemma StringEndAtQuote(s: seq<byte>, i: nat)
    requires i < |s| && s[i] == QUOTE
    ensures StringEnd(s, i) == Some(i + 1)
  {
  }

  lemma StringEndAtEnd(s: seq<byte>, i: nat)
    requires i >= |s|
    ensures StringEnd(s, i) == None
  {
  }

  /** `skipString`: on any buffering it stops where the forward escape automaton does. */
  method SkipString(iter: Iterator)
    requires iter.Valid()
    modifies iter, iter.buf
    ensures iter.Kept()
    ensures old(iter.err) == NoError ==>
              match StringEnd(iter.input, old(iter.Pos()))
              case Some(end) => iter.Pos() == end && iter.err == NoError
              case None => iter.err == Other
  {
    hide iter.BufferValid, iter.ReaderValid, iter.CapturedTo, StringEnd;
    ghost var p := iter.Pos();
    while true
      invariant iter.Kept() && iter.err == old(iter.err)
      invariant StringEnd(iter.input, p) == StringEnd(iter.input, iter.Pos())
      decreases |iter.input| - iter.inputOffset - iter.tail
    {
      var end, escaped := FindStringEnd(iter);
      if end != -1 {
        iter.head := end;
        return;
      }
      var more := MoreString(iter, escaped);
      if !more {
        return;
      }
    }
  }

  /** The next load in `skipString`; what an escape at the end of the buffer takes along is passed over. */
  method MoreString(iter: Iterator, escaped: bool) returns (more: bool)
    requires iter.Valid()
    modifies iter, iter.buf
    ensures iter.Kept()
    ensures more ==> iter.err == old(iter.err) && iter.inputOffset + iter.tail > old(iter.inputOffset + iter.tail)
    ensures !more ==> iter.err == Other
    ensures StringEnd(iter.input, old(iter.inputOffset + iter.tail) + if escaped then 1 else 0) ==
            if more then StringEnd(iter.input, iter.Pos()) else None
  {
    hide iter.BufferValid, iter.ReaderValid, iter.CapturedTo, StringEnd;
    ghost var q := iter.inputOffset + iter.tail;
    more := iter.LoadMore();
    if !more {
      StringEndAtEnd(iter.input, q);
      StringEndAtEnd(iter.input, q + 1);
      iter.ReportError();
      return;
    }
    if escaped {
      iter.head := 1;
    }
  }

  // ---------- Numbers ----------

  /** `skipNumber`: to the next delimiter. */
  method SkipNumber(iter: Iterator)
    requires iter.Valid()
    modifies iter, iter.buf
    ensures iter.Kept()
    ensures var e := DelimiterEnd(iter.input, old(iter.Pos()));
      if e < |iter.input| then iter.Pos() == e && iter.err == old(iter.err)
      else iter.err == iter.Exhausted(old(iter.err))
  {
    hide iter.BufferValid, iter.ReaderValid, iter.CapturedTo;
    ghost var p := iter.Pos();
    while true
      invariant iter.Kept() && iter.err == old(iter.err)
      invariant DelimiterEnd(iter.input, p) == DelimiterEnd(iter.input, iter.Pos())
      decreases |iter.input| - iter.inputOffset - iter.tail
    {
      var i := ScanToDelimiter(iter);
      if i < iter.tail {
        iter.head := i;
        return;
      }
      var ok := iter.LoadMore();
      if !ok {
        return;
      }
    }
  }

  /** The loop of `skipNumber` over one buffer. */
  method ScanToDelimiter(iter: Iterator) returns (i: int)
    requires iter.Valid()
    ensures iter.head <= i <= iter.tail
    ensures DelimiterEnd(iter.input, iter.Pos()) == DelimiterEnd(iter.input, iter.inputOffset + i)
    ensures i < iter.tail ==> DelimiterEnd(iter.input, iter.Pos()) == iter.inputOffset + i
  {
    hide iter.BufferValid, iter.ReaderValid, iter.CapturedTo;
    i := iter.head;
    while i < iter.tail
      invariant iter.head <= i <= iter.tail
      invariant DelimiterEnd(iter.input, iter.Pos()) == DelimiterEnd(iter.input, iter.inputOffset + i)
    {
      iter.BufferAt(i);
      if IsDelimiter(iter.buf[i]) {
        return;
      }
      i := i + 1;
    }
  }

  // ---------- Containers ----------

  /** A string inside a container: the scan goes on behind it. */
  method StringInside(iter: Iterator, i: int, ghost level: nat, b: Kind) returns (i': int)
    requires iter.Valid() && iter.head <= i < iter.tail && level >= 1
    requires iter.input[iter.inputOffset + i] == QUOTE
    modifies iter, iter.buf
    ensures iter.Kept()
    ensures i' == iter.head && iter.inputOffset + i' > old(iter.inputOffset + i)
    ensures old(iter.err) == NoError ==>
              CountFrom(iter.input, old(iter.inputOffset + i), level, iter.depth, b) ==
              if iter.err == NoError then CountFrom(iter.input, iter.inputOffset + i', level, iter.depth, b) else None
    ensures old(iter.err) == NoError ==> iter.err == NoError || iter.err == Other
  {
    hide iter.BufferValid, iter.ReaderValid, iter.CapturedTo, StringEnd;
    iter.head := i + 1;
    SkipString(iter);
    i' := iter.head;
  }

  /** An error stays, and a broken capture shows as an error. */
  twostate predicate StillIntact(iter: Iterator)
    reads iter
  {
    && (old(iter.err) != NoError ==> iter.err != NoError)
    && (iter.err == NoError ==> iter.captureIntact == old(iter.captureIntact))
  }

  /** One byte of the loop of `skipArray` and `skipObject`. */
  method CountStep(iter: Iterator, i: int, level: nat, b: Kind) returns (i': int, level': nat, done: bool)
    requires iter.Valid() && iter.head <= i < iter.tail && level >= 1
    modifies iter, iter.buf
    ensures iter.Advanced() && StillIntact(iter)
    ensures !done ==>
              && level' >= 1 && iter.head <= i' <= iter.tail
              && iter.inputOffset + i' > old(iter.inputOffset + i)
              && iter.depth - level' == old(iter.depth) - level
    ensures old(iter.err) == NoError ==>
              && (iter.err == NoError || iter.err == Other)
              && CountFrom(iter.input, old(iter.inputOffset + i), level, old(iter.depth), b) ==
                 if iter.err != NoError then None
                 else if done then Some(iter.Pos())
                 else CountFrom(iter.input, iter.inputOffset + i', level', iter.depth, b)
    ensures done && old(iter.err) == NoError && iter.err == NoError ==> iter.depth == old(iter.depth) - level
  {
    hide iter.BufferValid, iter.ReaderValid, iter.CapturedTo, StringEnd;
    i', level', done := i, level, false;
    iter.BufferAt(i);
    var c := iter.buf[i];
    if c == QUOTE {
      i' := StringInside(iter, i, level, b);
      return;
    }
    if c == Open(b) {
      level' := level + 1;
      var ok := iter.IncrementDepth();
      if !ok {
        done := true;
        return;
      }
    } else if c == Close(b) {
      var ok := iter.DecrementDepth();
      if !ok {
        done := true;
        return;
      }
      if level == 1 { // the bracket that matches the first one
        iter.head := i + 1;
        done := true;
        return;
      }
      level' := level - 1;
    }
    i' := i + 1;
  }

  /** The loop of `skipArray` and `skipObject` over what is buffered. */
  method CountBuffer(iter: Iterator, level: nat, b: Kind) returns (level': nat, done: bool)
    requires iter.Valid() && level >= 1
    modifies iter, iter.buf
    ensures iter.Advanced() && StillIntact(iter)
    ensures !done ==>
              && level' >= 1 && iter.depth - level' == old(iter.depth) - level
              && iter.inputOffset + iter.tail >= old(iter.Pos())
              && (old(iter.head < iter.tail) ==> iter.inputOffset + iter.tail > old(iter.Pos()))
    ensures old(iter.err) == NoError ==>
              && (iter.err == NoError || iter.err == Other)
              && CountFrom(iter.input, old(iter.Pos()), level, old(iter.depth), b) ==
                 if iter.err != NoError then None
                 else if done then Some(iter.Pos())
                 else CountFrom(iter.input, iter.inputOffset + iter.tail, level', iter.depth, b)
    ensures done && old(iter.err) == NoError && iter.err == NoError ==> iter.depth == old(iter.depth) - level
  {
    hide iter.BufferValid, iter.ReaderValid, iter.CapturedTo, CountFrom;
    var i := iter.head;
    level', done := level, false;
    while i < iter.tail
      invariant iter.Advanced() && StillIntact(iter)
      invariant level' >= 1 && iter.depth - level' == old(iter.depth) - level
      invariant iter.head <= i <= iter.tail
      invariant iter.inputOffset + i > old(iter.Pos())
             || (iter.inputOffset + i == old(iter.Pos()) && iter.tail - i == old(iter.tail - iter.head))
      invariant old(iter.err) == NoError ==>
          && (iter.err == NoError || iter.err == Other)
          && CountFrom(iter.input, old(iter.Pos()), level, old(iter.depth), b) ==
             if iter.err != NoError then None
             else CountFrom(iter.input, iter.inputOffset + i, level', iter.depth, b)
      decreases |iter.input| - iter.inputOffset - i
    {
      i, level', done := CountStep(iter, i, level', b);
      if done {
        return;
      }
    }
  }

  /** One round of the outer loop of `skipArray` and `skipObject`: what is buffered, and the next load. */
  method CountAndLoad(iter: Iterator, level: nat, b: Kind) returns (level': nat, done: bool)
    requires iter.Valid() && level >= 1
    modifies iter, iter.buf
    ensures iter.Advanced() && StillIntact(iter)
    ensures !done ==>
              && level' >= 1 && iter.depth - level' == old(iter.depth) - level
              && iter.head < iter.tail && (old(iter.head < iter.tail) ==> iter.Pos() > old(iter.Pos()))
    ensures old(iter.err) == NoError ==>
              && (iter.err == NoError || iter.err == Other)
              && CountFrom(iter.input, old(iter.Pos()), level, old(iter.depth), b) ==
                 if iter.err != NoError then None
                 else if done then Some(iter.Pos())
                 else CountFrom(iter.input, iter.Pos(), level', iter.depth, b)
    ensures done && old(iter.err) == NoError && iter.err == NoError ==> iter.depth == old(iter.depth) - level
  {
    hide iter.BufferValid, iter.ReaderValid, iter.CapturedTo, CountFrom;
    level', done := CountBuffer(iter, level, b);
    if !done {
      var more := iter.LoadMore();
      if !more {
        CountAtEnd(iter.input, level', iter.depth, b);
        iter.ReportError();
        done := true;
      }
    }
  }

  /** `skipArray` and `skipObject`, whose loops differ only in the bracket they count; the opening one is consumed. */
  method SkipContainer(iter: Iterator, b: Kind)
    requires iter.Valid()
    modifies iter, iter.buf
    ensures iter.Advanced() && StillIntact(iter)
    ensures old(iter.err) == NoError ==>
              match ContainerEnd(iter.input, old(iter.Pos()), old(iter.depth), b)
              case Some(end) => iter.Pos() == end && iter.err == NoError && iter.depth == old(iter.depth)
              case None => iter.err == Other
  {
    hide iter.BufferValid, iter.ReaderValid, iter.CapturedTo, CountFrom;
    var level := 1;
    ghost var p := iter.Pos();
    var ok := iter.IncrementDepth();
    if !ok {
      return;
    }
    while true
      invariant iter.Advanced() && StillIntact(iter) && level >= 1
      invariant iter.depth - level == old(iter.depth)
      invariant old(iter.err) == NoError ==>
          && (iter.err == NoError || iter.err == Other)
          && CountFrom(iter.input, p, 1, old(iter.depth) + 1, b) ==
             if iter.err != NoError then None else CountFrom(iter.input, iter.Pos(), level, iter.depth, b)
      decreases |iter.input| - iter.Pos(), iter.head == iter.tail
    {
      var done;
      level, done := CountAndLoad(iter, level, b);
      if done {
        return;
      }
    }
  }

  lemma CountAtEnd(s: seq<byte>, level: nat, depth: int, b: Kind)
    requires level >= 1
    ensures CountFrom(s, |s|, level, depth, b) == None
  {
  }

  // ---------- Skip ----------

  /** What `Skip` left behind the value at `j`; a number that the end of the input cuts off may leave io.EOF. */
  ghost predicate SloppyOutcome(iter: Iterator, j: nat, depth: int, intact: bool)
    requires j < |iter.input|
    reads iter
  {
    var r := SloppyFrom(iter.input, j, depth, Containers.ModeOf(iter, Skipping));
    if r.Fails? && StartsNumber(iter.input[j]) then iter.err != NoError
    else Containers.AnyOutcome(iter, r, depth, intact)
  }

  /** `Skip` in a build with the sloppy skippers; its token `c` is not NUL. */
  method SkipFrom(iter: Iterator, c: byte)
    requires iter.Valid()
    requires 0 < iter.Pos() && c == iter.input[iter.Pos() - 1]
    requires iter.err == NoError ==> iter.CanUnread()
    modifies iter, iter.buf
    ensures iter.AdvancedFrom(old(iter.Pos()) - 1)
    ensures old(iter.err) == NoError ==>
              SloppyOutcome(iter, old(iter.Pos()) - 1, old(iter.depth), old(iter.captureIntact))
  {
    hide iter.BufferValid, iter.ReaderValid, iter.CapturedTo, At, FloatAt, StringEnd, ContainerEnd;
    if c == QUOTE {
      SkipString(iter);
    } else if c == LOWER_N {
      SkipThreeBytes(iter, LOWER_U, LOWER_L, LOWER_L); // null
    } else if c == LOWER_T {
      SkipThreeBytes(iter, LOWER_R, LOWER_U, LOWER_E); // true
    } else if c == LOWER_F {
      SkipFourBytes(iter, LOWER_A, LOWER_L, LOWER_S, LOWER_E); // false
    } else if c == ZERO {
      Containers.SkipZero(iter);
    } else if c == MINUS || IsDigit(c) {
      SkipNumber(iter);
    } else if c == OPEN_BRACKET {
      SkipContainer(iter, Square);
    } else if c == OPEN_BRACE {
      SkipContainer(iter, Curly);
    } else {
      iter.UnreadByte();
      iter.ReportError();
    }
  }

  /** `Skip` in a build with the sloppy skippers. */
  method Skip(iter: Iterator)
    requires iter.Valid()
    modifies iter, iter.buf
    ensures iter.Advanced()
    ensures old(iter.err) == NoError ==>
              var j := SkipWhitespace(iter.input, old(iter.Pos()));
              if j < |iter.input|
              then SloppyOutcome(iter, j, old(iter.depth), old(iter.captureIntact))
              else iter.err == Other
  {
    hide iter.BufferValid, iter.ReaderValid, iter.CapturedTo, SloppyFrom;
    var c := iter.NextToken();
    if c == 0 { // no token, or a NUL byte, which starts no value
      if iter.Pos() > 0 && SkipWhitespace(iter.input, old(iter.Pos())) < |iter.input| {
        NulIsNoValue(iter.input, iter.Pos() - 1, iter.depth, Containers.ModeOf(iter, Skipping));
      }
      iter.UnreadByte();
      iter.ReportError();
      return;
    }
    SkipFrom(iter, c);
  }

  lemma NulIsNoValue(s: seq<byte>, j: nat, depth: int, m: Mode)
    requires j < |s| && s[j] == 0
    ensures SloppyFrom(s, j, depth, m) == Fails
  {
  }
}

/** iter_str.go and rawstring.go: the string readers over the buffered cursor, and raw strings. */
module IterStr {
  import opened Bytes
  import opened IterCore
  import opened Literals
  import opened StringMachines

  // ---------- Hexadecimal digits ----------

  /** The digit step of `parseU4`, in byte arithmetic with wrap-around; -1 for what is no digit. */
  function HexDigit(c: byte): (d: int)
    ensures d == if IsHex(c) then HexValue(c) else -1
  {
    var c1 := (c - 0x30) % 256;
    if c1 <= 9 then c1
    else
      var c2 := if c1 / 32 % 2 == 0 then c1 + 32 else c1;
      var c3 := (c2 - (0x61 - 0x30)) % 256;
      if c3 <= 5 then c3 + 10 else -1
  }

  predicate HexRun(s: seq<byte>, i: nat, n: nat) {
    i + n <= |s| && forall k :: i <= k < i + n ==> IsHex(s[k])
  }

  /** The number that `n` hexadecimal digits denote. */
  function HexNumber(s: seq<byte>, i: nat, n: nat): nat
    requires HexRun(s, i, n)
  {
    if n == 0 then 0 else HexNumber(s, i, n - 1) * 16 + HexValue(s[i + n - 1])
  }

  lemma HexNumber4(s: seq<byte>, i: nat)
    requires HexRun(s, i, 4)
    ensures HexAt(s, i) && HexNumber(s, i, 4) == U4(s, i)
  {
    assert HexNumber(s, i, 1) == HexValue(s[i]);
    assert HexNumber(s, i, 2) == HexValue(s[i]) * 16 + HexValue(s[i + 1]);
    assert HexNumber(s, i, 3) == HexNumber(s, i, 2) * 16 + HexValue(s[i + 2]);
  }

  lemma HexNumberBound(s: seq<byte>, i: nat, n: nat)
    requires HexRun(s, i, n) && n <= 3
    ensures HexNumber(s, i, n) < 0x1000
  {
    if n > 0 {
      assert n >= 2 ==> HexNumber(s, i, n - 1) == HexNumber(s, i, n - 2) * 16 + HexValue(s[i + n - 2]);
      assert n == 3 ==> HexNumber(s, i, 1) == HexValue(s[i]);
    }
  }

  /**
   * `parseU4` where its callers call it, with four bytes left in the buffer (the bounds check in front of its
   * loop then passes); -1 leaves the cursor where it is.
   */
  method ParseU4(iter: Iterator) returns (ret: int)
    requires iter.Valid() && iter.head + 4 <= iter.tail
    modifies iter`head
    ensures iter.Valid()
    ensures HexAt(iter.input, old(iter.Pos())) ==>
              ret == U4(iter.input, old(iter.Pos())) && iter.head == old(iter.head) + 4
    ensures !HexAt(iter.input, old(iter.Pos())) ==> ret == -1 && iter.head == old(iter.head)
  {
    hide iter.BufferValid, iter.ReaderValid, iter.CapturedTo;
    ret := 0;
    ghost var p := iter.Pos();
    var i := iter.head;
    while i < iter.head + 4
      invariant unchanged(iter)
      invariant iter.head <= i <= iter.head + 4
      invariant HexRun(iter.input, p, i - iter.head)
      invariant ret == HexNumber(iter.input, p, i - iter.head)
    {
      iter.BufferAt(i);
      var d := HexDigit(iter.buf[i]);
      if d == -1 {
        return -1;
      }
      ret := ret * 16 + d;
      i := i + 1;
    }
    HexNumber4(iter.input, p);
    iter.head := i;
  }

  /** `readU4`: four digits, wherever the buffer ends. */
  method ReadU4(iter: Iterator) returns (ret: int)
    requires iter.Valid()
    modifies iter, iter.buf
    ensures iter.Kept()
    ensures old(iter.err) == NoError && HexAt(iter.input, old(iter.Pos())) ==>
              ret == U4(iter.input, old(iter.Pos())) && iter.Pos() == old(iter.Pos()) + 4 && iter.err == NoError
    ensures old(iter.err) == NoError && !HexAt(iter.input, old(iter.Pos())) ==>
              iter.err != NoError && !IsSurrogate(ret)
  {
    hide iter.BufferValid, iter.ReaderValid, iter.CapturedTo;
    if iter.tail - iter.head >= 4 {
      ret := ParseU4(iter);
      if ret < 0 {
        iter.ReportError();
        return 0;
      }
      return;
    }
    ret := ReadU4Bytes(iter);
  }

  /** The loop of `readU4`, when fewer than four bytes are buffered. */
  method ReadU4Bytes(iter: Iterator) returns (ret: int)
    requires iter.Valid()
    modifies iter, iter.buf
    ensures iter.Kept()
    ensures old(iter.err) == NoError && HexAt(iter.input, old(iter.Pos())) ==>
              ret == U4(iter.input, old(iter.Pos())) && iter.Pos() == old(iter.Pos()) + 4 && iter.err == NoError
    ensures old(iter.err) == NoError && !HexAt(iter.input, old(iter.Pos())) ==>
              iter.err != NoError && !IsSurrogate(ret)
  {
    hide iter.BufferValid, iter.ReaderValid, iter.CapturedTo;
    ret := 0;
    ghost var p := iter.Pos();
    var i := 0;
    while i < 4
      invariant iter.Kept() && 0 <= i <= 4
      invariant old(iter.err) == NoError ==>
          && iter.err == NoError && iter.Pos() == p + i
          && HexRun(iter.input, p, i) && ret == HexNumber(iter.input, p, i)
    {
      var c := iter.ReadByte();
      if iter.err != NoError {
        if old(iter.err) == NoError {
          HexNumberBound(iter.input, p, i);
        }
        return;
      }
      var d := HexDigit(c);
      if d == -1 {
        iter.ReportError();
        if old(iter.err) == NoError {
          HexNumberBound(iter.input, p, i);
        }
        return;
      }
      ret := ret * 16 + d;
      i := i + 1;
    }
    if old(iter.err) == NoError {
      HexNumber4(iter.input, p);
    }
  }

  lemma FilledMore(filled: seq<byte>, i: nat, c: byte, s: seq<byte>, p: nat)
    requires i < |filled| && p + i < |s| && filled[..i] == s[p..p + i] && c == s[p + i]
    ensures filled[i := c][..i + 1] == s[p..p + i + 1]
  {
    assert filled[i := c][..i + 1] == filled[..i] + [c];
  }

  /** `readAndFillU4`: four digits, kept in a four-byte buffer. */
  method ReadAndFillU4(iter: Iterator) returns (filled: seq<byte>)
    requires iter.Valid()
    modifies iter, iter.buf
    ensures iter.Kept() && |filled| == 4
    ensures old(iter.err) == NoError && HexAt(iter.input, old(iter.Pos())) ==>
              && iter.Pos() == old(iter.Pos()) + 4 && iter.err == NoError
              && filled == iter.input[old(iter.Pos())..iter.Pos()]
    ensures old(iter.err) == NoError && !HexAt(iter.input, old(iter.Pos())) ==> iter.err != NoError
  {
    hide iter.BufferValid, iter.ReaderValid, iter.CapturedTo;
    filled := [0, 0, 0, 0];
    ghost var p := iter.Pos();
    var i := 0;
    while i < 4
      invariant iter.Kept() && 0 <= i <= 4 && |filled| == 4
      invariant old(iter.err) == NoError ==>
          && iter.err == NoError && iter.Pos() == p + i <= |iter.input|
          && filled[..i] == iter.input[p..p + i]
          && HexRun(iter.input, p, i)
    {
      var c := iter.ReadByte();
      if iter.err != NoError {
        return;
      }
      if old(iter.err) == NoError {
        FilledMore(filled, i, c, iter.input, p);
      }
      filled := filled[i := c];
      if HexDigit(c) == -1 {
        iter.ReportError();
        return;
      }
      i := i + 1;
    }
  }

  // ---------- Decoding ----------

  /** The two-character escapes of `readEscapedChar`, and its error for any other character. */
  method WriteSimpleEscape(iter: Iterator, c: byte, sb: seq<byte>) returns (sb': seq<byte>)
    modifies iter`err
    ensures match SimpleEscape(c)
      case Some(b) => sb' == sb + [b] && iter.err == old(iter.err)
      case None => iter.err == Other
  {
    sb' := sb;
    if c == QUOTE { sb' := sb' + [QUOTE]; }
    else if c == BACKSLASH { sb' := sb' + [BACKSLASH]; }
    else if c == SLASH { sb' := sb' + [SLASH]; }
    else if c == LOWER_B { sb' := sb' + [0x08]; }
    else if c == LOWER_F { sb' := sb' + [0x0C]; }
    else if c == LOWER_N { sb' := sb' + [LINE_FEED]; }
    else if c == LOWER_R { sb' := sb' + [CARRIAGE_RETURN]; }
    else if c == LOWER_T { sb' := sb' + [TAB]; }
    else { iter.ReportError(); }
  }

  /** `readEscapedChar`; its `goto start` is always taken with a character other than 'u'. */
  method ReadEscapedChar(iter: Iterator, sb: seq<byte>) returns (sb': seq<byte>)
    requires iter.Valid()
    modifies iter, iter.buf
    ensures iter.Kept()
    ensures old(iter.err) == NoError ==>
              match Escape(iter.input, old(iter.Pos()))
              case Ok(v, next) => sb' == sb + v && iter.Pos() == next && iter.err == NoError
              case Bad => iter.err != NoError
  {
    hide iter.BufferValid, iter.ReaderValid, iter.CapturedTo;
    var c := iter.ReadByte();
    if c == LOWER_U {
      var r := ReadU4(iter);
      if IsSurrogate(r) {
        sb' := ReadAfterSurrogate(iter, r, sb);
      } else if iter.err == NoError {
        sb' := sb + RuneBytes(r);
      } else {
        sb' := sb;
      }
    } else {
      sb' := WriteSimpleEscape(iter, c, sb);
    }
  }

  /** The part of `readEscapedChar` behind a surrogate. */
  method ReadAfterSurrogate(iter: Iterator, r: int, sb: seq<byte>) returns (sb': seq<byte>)
    requires iter.Valid()
    modifies iter, iter.buf
    ensures iter.Kept()
    ensures old(iter.err) == NoError ==>
              match AfterSurrogate(r, iter.input, old(iter.Pos()))
              case Ok(v, next) => sb' == sb + v && iter.Pos() == next && iter.err == NoError
              case Bad => iter.err != NoError
  {
    hide iter.BufferValid, iter.ReaderValid, iter.CapturedTo, RuneBytes, U4, HexAt, SimpleEscape;
    sb' := sb;
    var c := iter.ReadByte();
    if iter.err != NoError {
      return;
    }
    if c != BACKSLASH {
      iter.UnreadByte();
      sb' := sb + RuneBytes(r);
      return;
    }
    c := iter.ReadByte();
    if iter.err != NoError {
      return;
    }
    if c != LOWER_U {
      sb' := sb + RuneBytes(r);
      sb' := WriteSimpleEscape(iter, c, sb');
      return;
    }
    var r2 := ReadU4(iter);
    if iter.err != NoError {
      return;
    }
    var combined := DecodeSurrogates(r, r2);
    if combined == REPLACEMENT {
      sb' := sb + RuneBytes(r) + RuneBytes(r2);
    } else {
      sb' := sb + RuneBytes(combined);
    }
  }

  /** The loop of `readStringInner` over one buffer: it stops at a quote, a backslash or a control character. */
  method ScanPlain(iter: Iterator) returns (i: int)
    requires iter.Valid()
    ensures iter.head <= i <= iter.tail
    ensures forall k :: iter.Pos() <= k < iter.inputOffset + i ==> IsPlain(iter.input[k])
    ensures i < iter.tail ==> !IsPlain(iter.buf[i]) && iter.buf[i] == iter.input[iter.inputOffset + i]
  {
    hide iter.BufferValid, iter.ReaderValid, iter.CapturedTo;
    i := iter.head;
    while i < iter.tail
      invariant iter.head <= i <= iter.tail
      invariant forall k :: iter.Pos() <= k < iter.inputOffset + i ==> IsPlain(iter.input[k])
    {
      iter.BufferAt(i);
      if !IsPlain(iter.buf[i]) {
        return;
      }
      i := i + 1;
    }
  }

  /** `copy buffer and load more`: false when no byte is left (or a NUL byte is next, an error in a string). */
  method LoadNext(iter: Iterator) returns (more: bool)
    requires iter.Valid()
    modifies iter, iter.buf
    ensures iter.Kept()
    ensures var p := old(iter.inputOffset + iter.tail);
      && (old(iter.err) == NoError ==> more == (p < |iter.input| && iter.input[p] != 0))
      && (more && old(iter.err) == NoError ==> iter.Pos() == p && iter.err == NoError && iter.head < iter.tail)
  {
    hide iter.BufferValid, iter.ReaderValid, iter.CapturedTo;
    iter.head := iter.tail;
    var c := iter.ReadByte();
    if c == 0 {
      return false;
    }
    iter.UnreadByte();
    return true;
  }

  /** The branch of `readStringInner` for a backslash at index `i`. */
  method EscapeAt(iter: Iterator, i: int, sb: seq<byte>) returns (sb': seq<byte>)
    requires iter.Valid() && iter.err == NoError
    requires iter.head <= i < iter.tail && iter.input[iter.inputOffset + i] == BACKSLASH
    modifies iter, iter.buf
    ensures iter.Kept() && iter.Pos() > old(iter.inputOffset + i)
    ensures Prepend(sb, Decode(iter.input, old(iter.inputOffset + i))) ==
            if iter.err != NoError then Bad else Prepend(sb', Decode(iter.input, iter.Pos()))
  {
    hide iter.BufferValid, iter.ReaderValid, iter.CapturedTo, Escape;
    ghost var e := Escape(iter.input, iter.inputOffset + i + 1);
    if e.Ok? {
      PrependPrepend(sb, e.value, Decode(iter.input, e.next));
    }
    iter.head := i + 1;
    sb' := ReadEscapedChar(iter, sb);
  }

  /** How one pass of `outerLoop` ends: at the closing quote, in an error, or with more to read. */
  datatype Pass = Closed | Failed | More

  /** One pass of `outerLoop` in `readStringInner`; `sb` is the builder. */
  method StringPass(iter: Iterator, sb: seq<byte>) returns (sb': seq<byte>, pass: Pass)
    requires iter.Valid() && iter.err == NoError
    modifies iter, iter.buf
    ensures iter.Kept()
    ensures Prepend(sb, Decode(iter.input, old(iter.Pos()))) ==
            if pass.Closed? then Ok(sb', iter.Pos())
            else if pass.Failed? || iter.err != NoError then Bad
            else Prepend(sb', Decode(iter.input, iter.Pos()))
    ensures pass.Closed? ==> iter.err == NoError
    ensures pass.More? && iter.Pos() == old(iter.Pos()) ==> old(iter.head == iter.tail) && iter.head < iter.tail
  {
    hide iter.BufferValid, iter.ReaderValid, iter.CapturedTo, Decode, Prepend;
    ghost var p := iter.Pos();
    var i := ScanPlain(iter);
    iter.BufferSlice(iter.head, i);
    var run := iter.buf[iter.head..i];
    DecodeRunThen(iter.input, sb, p, p + |run|);
    sb' := sb + run;
    if i == iter.tail {
      var more := LoadNext(iter);
      return sb', if more then More else Failed;
    }
    if iter.buf[i] == QUOTE {
      iter.head := i + 1;
      return sb', Closed;
    }
    if iter.buf[i] != BACKSLASH {
      iter.ReportError();
      return sb', Failed;
    }
    sb' := EscapeAt(iter, i, sb');
    return sb', More;
  }

  /**
   * `readStringInner`: on any buffering it returns the decoded string and stops past its quote, exactly when
   * the input holds a string there.
   */
  method ReadStringInner(iter: Iterator) returns (str: seq<byte>)
    requires iter.Valid()
    modifies iter, iter.buf
    ensures iter.Kept()
    ensures old(iter.err) == NoError ==>
              match Decode(iter.input, old(iter.Pos()))
              case Ok(v, next) => str == v && iter.Pos() == next && iter.err == NoError
              case Bad => iter.err == Other
    ensures old(iter.err) != NoError ==> iter.err == Other
  {
    hide iter.BufferValid, iter.ReaderValid, iter.CapturedTo, Decode;
    var sb: seq<byte> := [];
    ghost var d := Decode(iter.input, iter.Pos());
    PrependNothing(d);
    while iter.err == NoError
      invariant iter.Kept()
      invariant old(iter.err) == NoError ==>
          d == if iter.err == NoError then Prepend(sb, Decode(iter.input, iter.Pos())) else Bad
      decreases |iter.input| - iter.Pos(), iter.head == iter.tail
    {
      var pass;
      sb, pass := StringPass(iter, sb);
      if pass.Closed? {
        return sb;
      }
      if pass.Failed? {
        break;
      }
    }
    iter.ReportError();
    return [];
  }

  // ---------- Raw strings ----------

  /**
   * `RawString`: nil, a view of a buffer (`isRaw`), or a copy. The bytes end with the closing quote. It is a
   * struct passed by value, so `Realize` returns the changed struct.
   */
  datatype RawString =
    | NilString
    | View(buf: array<byte>, from: int, to: int, hasEscapes: bool)
    | Copied(bytes: seq<byte>, hasEscapes: bool)
  {
    predicate InBounds() {
      View? ==> 0 <= from <= to <= buf.Length
    }

    function Content(): seq<byte>
      requires !NilString? && InBounds()
      reads if View? then {buf} else {}
    {
      if View? then buf[from..to] else bytes
    }

    /** `IsNil` */
    predicate IsNil() {
      NilString?
    }

    /** `Realize`: a view becomes a copy. */
    method Realize() returns (r: RawString)
      requires InBounds()
      ensures !r.View? && (r.NilString? <==> NilString?)
      ensures !NilString? ==> r.Content() == Content() && r.hasEscapes == hasEscapes
    {
      if View? {
        r := Copied(buf[from..to], hasEscapes);
      } else {
        r := this;
      }
    }

    /** `Bytes`: the text without the closing quote, and whether it is a view. */
    method Bytes() returns (raw: seq<byte>, isRaw: bool)
      requires InBounds()
      ensures isRaw == View?
      ensures NilString? ==> raw == []
      ensures !NilString? && Content() != [] ==> raw == Content()[..|Content()| - 1]
    {
      raw := if NilString? then [] else Content();
      if |raw| > 0 {
        raw := raw[..|raw| - 1];
      }
      isRaw := View?;
    }
  }

  /** `rs` holds the string that starts at `p` and ends at `end` of the iterator's input. */
  ghost predicate Holds(rs: RawString, iter: Iterator, p: nat, end: nat)
    reads iter, iter.buf, if rs.View? then {rs.buf} else {}
  {
    && p <= end <= |iter.input|
    && !rs.NilString? && rs.InBounds()
    && rs.Content() == iter.input[p..end]
    && rs.hasEscapes == HasBackslash(iter.input, p, end)
    && (rs.View? ==> rs.buf == iter.buf)
  }

  predicate HasBackslash(s: seq<byte>, i: nat, j: nat)
    requires i <= j <= |s|
  {
    BACKSLASH in s[i..j]
  }

  lemma HasBackslashSplit(s: seq<byte>, i: nat, j: nat, k: nat)
    requires i <= j <= k <= |s|
    ensures HasBackslash(s, i, k) == (HasBackslash(s, i, j) || HasBackslash(s, j, k))
  {
    assert s[i..k] == s[i..j] + s[j..k];
  }

  lemma HasBackslashOne(s: seq<byte>, i: nat)
    requires i < |s|
    ensures HasBackslash(s, i, i + 1) == (s[i] == BACKSLASH)
  {
    assert s[i..i + 1] == [s[i]];
  }

  /** Where a string ends, read from the middle: `escaped` when the byte before `p` is an unpaired backslash. */
  function RawFrom(s: seq<byte>, p: nat, escaped: bool): Option<nat> {
    if escaped && p > 0 then RawEnd(s, p - 1) else RawEnd(s, p)
  }

  predicate EscapeState(s: seq<byte>, p: nat, escaped: bool) {
    escaped ==> 0 < p <= |s| && s[p - 1] == BACKSLASH
  }

  /** What stops the loop of `readRawStringInner` over one buffer. */
  datatype RawStop = EndOfBuffer | ClosingQuote | Invalid | UnicodeEscape

  /** One character of that loop; `Some` stops it. */
  function RawStep(c: byte, escaped: bool): Option<RawStop> {
    if c == QUOTE then (if escaped then None else Some(ClosingQuote))
    else if c == BACKSLASH then None
    else if c < SPACE then Some(Invalid)
    else if !escaped then None
    else if c == LOWER_U then Some(UnicodeEscape)
    else if SimpleEscape(c).Some? then None
    else Some(Invalid)
  }

  lemma RawStepCorrect(s: seq<byte>, p: nat, escaped: bool)
    requires p < |s| && EscapeState(s, p, escaped)
    ensures var escaped' := s[p] == BACKSLASH && !escaped;
      match RawStep(s[p], escaped)
      case None => EscapeState(s, p + 1, escaped') && RawFrom(s, p, escaped) == RawFrom(s, p + 1, escaped')
      case Some(ClosingQuote) => RawFrom(s, p, escaped) == Some(p + 1)
      case Some(Invalid) => RawFrom(s, p, escaped) == None
      case Some(UnicodeEscape) =>
        RawFrom(s, p, escaped) == if HexAt(s, p + 1) then RawEnd(s, p + 5) else None
      case Some(EndOfBuffer) => false
  {
  }

  /** The loop of `readRawStringInner` over one buffer, from `head` to the index where it stops. */
  method ScanRaw(iter: Iterator, escaped: bool, hasEscapes: bool)
    returns (i: int, stop: RawStop, escaped': bool, hasEscapes': bool)
    requires iter.Valid() && EscapeState(iter.input, iter.Pos(), escaped) && (escaped ==> hasEscapes)
    ensures iter.head <= i <= iter.tail && (escaped' ==> hasEscapes')
    ensures var q := iter.inputOffset + i;
      && EscapeState(iter.input, q, escaped')
      && RawFrom(iter.input, iter.Pos(), escaped) == RawFrom(iter.input, q, escaped')
      && hasEscapes' == (hasEscapes || HasBackslash(iter.input, iter.Pos(), q))
      && if stop.EndOfBuffer? then i == iter.tail
         else i < iter.tail && RawStep(iter.input[q], escaped') == Some(stop)
  {
    hide iter.BufferValid, iter.ReaderValid, iter.CapturedTo, RawStep, EscapeState, RawFrom, HasBackslash;
    ghost var p := iter.Pos();
    escaped', hasEscapes', stop := escaped, hasEscapes, EndOfBuffer;
    i := iter.head;
    NoBackslashInNothing(iter.input, p);
    while i < iter.tail
      invariant iter.head <= i <= iter.tail && (escaped' ==> hasEscapes')
      invariant EscapeState(iter.input, iter.inputOffset + i, escaped')
      invariant RawFrom(iter.input, p, escaped) == RawFrom(iter.input, iter.inputOffset + i, escaped')
      invariant hasEscapes' == (hasEscapes || HasBackslash(iter.input, p, iter.inputOffset + i))
    {
      ghost var q := iter.inputOffset + i;
      iter.BufferAt(i);
      var c := iter.buf[i];
      RawStepCorrect(iter.input, q, escaped');
      var step := RawStep(c, escaped');
      if step.Some? {
        stop := step.value;
        return;
      }
      HasBackslashSplit(iter.input, p, q, q + 1);
      HasBackslashOne(iter.input, q);
      escaped' := c == BACKSLASH && !escaped';
      hasEscapes' := hasEscapes' || c == BACKSLASH;
      i := i + 1;
    }
  }

  lemma NoBackslashInNothing(s: seq<byte>, i: nat)
    requires i <= |s|
    ensures !HasBackslash(s, i, i)
  {
  }

  lemma CopyMore(s: seq<byte>, start: nat, p: nat, q: nat)
    requires start <= p <= q <= |s|
    ensures s[start..p] + s[p..q] == s[start..q]
    ensures HasBackslash(s, start, q) == (HasBackslash(s, start, p) || HasBackslash(s, p, q))
  {
    assert s[start..q] == s[start..p] + s[p..q];
  }

  /** The branch of `readRawStringInner` for an escape `\u` whose 'u' is at index `i`. */
  method RawUnicodeEscape(iter: Iterator, i: int, copied: seq<byte>) returns (copied': seq<byte>, ok: bool)
    requires iter.Valid() && iter.err == NoError && iter.head <= i < iter.tail
    modifies iter, iter.buf
    ensures iter.Kept() && iter.Pos() > old(iter.inputOffset + i)
    ensures var q := old(iter.inputOffset + i) + 1;
      if HexAt(iter.input, q)
      then ok && iter.err == NoError && iter.Pos() == q + 4
           && copied' == copied + iter.input[old(iter.Pos())..q + 4]
      else !ok || iter.err != NoError
  {
    hide iter.BufferValid, iter.ReaderValid, iter.CapturedTo, HexAt;
    ghost var p := iter.Pos();
    ghost var q := iter.inputOffset + i + 1;
    var prevHead := iter.head;
    iter.head := i + 1;
    // a view must not outlive the bytes it points at
    if i + 4 >= iter.tail {
      iter.BufferSlice(prevHead, iter.head);
      copied' := copied + iter.buf[prevHead..iter.head];
      var filled := ReadAndFillU4(iter);
      copied' := copied' + filled;
      if HexAt(iter.input, q) {
        assert copied + iter.input[p..q] + iter.input[q..q + 4] == copied + iter.input[p..q + 4];
      }
      return copied', true;
    }
    var u := ParseU4(iter);
    if u == -1 {
      iter.ReportError();
      return copied, false;
    }
    iter.BufferSlice(prevHead, iter.head);
    copied' := copied + iter.buf[prevHead..iter.head];
    ok := true;
  }

  /** The locals of `readRawStringInner` between two passes of its `outerLoop`. */
  datatype RawLocals = RawLocals(copied: seq<byte>, readingEscape: bool, hasEscapes: bool)

  /** `copied` is the string so far, and the flags describe it. */
  ghost predicate RawState(s: seq<byte>, start: nat, p: nat, l: RawLocals) {
    && start <= p <= |s|
    && l.copied == s[start..p]
    && l.hasEscapes == HasBackslash(s, start, p)
    && EscapeState(s, p, l.readingEscape)
    && (l.readingEscape ==> l.hasEscapes)
  }

  lemma RawStateMoves(s: seq<byte>, start: nat, p: nat, q: nat, l: RawLocals, l': RawLocals)
    requires RawState(s, start, p, l) && p <= q <= |s|
    requires l'.copied == l.copied + s[p..q]
    requires l'.hasEscapes == (l.hasEscapes || HasBackslash(s, p, q)) || l.hasEscapes == l'.hasEscapes == true
    requires EscapeState(s, q, l'.readingEscape) && (l'.readingEscape ==> l'.hasEscapes)
    ensures RawState(s, start, q, l')
  {
    CopyMore(s, start, p, q);
  }

  /** The closing quote is at index `i`: the string is a view if nothing was copied, else a copy. */
  method CloseRaw(iter: Iterator, ghost start: nat, i: int, l: RawLocals) returns (rs: RawString)
    requires iter.Valid() && iter.err == NoError && iter.head <= i < iter.tail
    requires start <= iter.Pos() && l.copied == iter.input[start..iter.Pos()]
    requires l.hasEscapes == HasBackslash(iter.input, start, iter.inputOffset + i)
    requires iter.input[iter.inputOffset + i] == QUOTE
    modifies iter`head
    ensures iter.Valid() && iter.head == i + 1
    ensures Holds(rs, iter, start, iter.Pos())
  {
    hide iter.BufferValid, iter.ReaderValid, iter.CapturedTo, HasBackslash, Holds;
    var prevHead := iter.head;
    ghost var end := iter.inputOffset + i + 1;
    iter.BufferSlice(prevHead, i + 1);
    QuoteCloses(iter.input, start, iter.Pos(), end, l, iter.buf[prevHead..i + 1]);
    rs := if |l.copied| == 0 then View(iter.buf, prevHead, i + 1, l.hasEscapes)
          else Copied(l.copied + iter.buf[prevHead..i + 1], l.hasEscapes);
    iter.head := i + 1;
    assert iter.Pos() == end;
    if |l.copied| == 0 {
      ViewHolds(rs, iter, start);
    } else {
      CopyHolds(rs, iter, start);
    }
  }

  lemma ViewHolds(rs: RawString, iter: Iterator, start: nat)
    requires iter.BufferValid() && 0 <= iter.head <= iter.tail
    requires rs.View? && rs.buf == iter.buf && 0 <= rs.from <= rs.to == iter.head
    requires start == iter.inputOffset + rs.from
    requires rs.hasEscapes == HasBackslash(iter.input, start, iter.Pos())
    ensures Holds(rs, iter, start, iter.Pos())
  {
    hide HasBackslash;
    iter.BufferSlice(rs.from, rs.to);
  }

  lemma CopyHolds(rs: RawString, iter: Iterator, start: nat)
    requires start <= iter.Pos() <= |iter.input| && rs.Copied? && rs.Content() == iter.input[start..iter.Pos()]
    requires rs.hasEscapes == HasBackslash(iter.input, start, iter.Pos())
    ensures Holds(rs, iter, start, iter.Pos())
  {
  }

  lemma QuoteCloses(s: seq<byte>, start: nat, p: nat, end: nat, l: RawLocals, run: seq<byte>)
    requires start <= p < end <= |s| && s[end - 1] == QUOTE
    requires l.copied == s[start..p] && run == s[p..end] && l.hasEscapes == HasBackslash(s, start, end - 1)
    ensures l.copied + run == s[start..end] && l.hasEscapes == HasBackslash(s, start, end)
    ensures |l.copied| == 0 ==> start == p
  {
    HasBackslashSplit(s, start, end - 1, end);
    HasBackslashOne(s, end - 1);
  }

  lemma RawAtEnd(s: seq<byte>, p: nat, escaped: bool)
    requires EscapeState(s, p, escaped)
    requires p == |s| || (p < |s| && s[p] == 0)
    ensures RawFrom(s, p, escaped) == None
  {
  }

  /** The scan of one buffer reached its end: the rest of it is copied and more is loaded. */
  method RawNextBuffer(iter: Iterator, ghost start: nat, l: RawLocals, escaped: bool, hasEscapes: bool)
    returns (l': RawLocals, more: bool)
    requires iter.Valid() && iter.err == NoError
    requires RawState(iter.input, start, iter.Pos(), l)
    requires var q := iter.inputOffset + iter.tail;
      && EscapeState(iter.input, q, escaped) && (escaped ==> hasEscapes)
      && hasEscapes == (l.hasEscapes || HasBackslash(iter.input, iter.Pos(), q))
    modifies iter, iter.buf
    ensures iter.Kept()
    ensures var q := old(iter.inputOffset + iter.tail);
      if more && iter.err == NoError
      then iter.Pos() == q && iter.head < iter.tail && RawState(iter.input, start, q, l') && l'.readingEscape == escaped
      else RawFrom(iter.input, q, escaped) == None
    ensures more ==> iter.err == NoError
  {
    hide iter.BufferValid, iter.ReaderValid, iter.CapturedTo, HasBackslash, RawEnd, RawFrom;
    ghost var q := iter.inputOffset + iter.tail;
    iter.BufferSlice(iter.head, iter.tail);
    l' := RawLocals(l.copied + iter.buf[iter.head..iter.tail], escaped, hasEscapes);
    RawStateMoves(iter.input, start, iter.Pos(), q, l, l');
    more := LoadNext(iter);
    if !more {
      RawAtEnd(iter.input, q, escaped);
    }
  }

  /** The scan stopped at index `i` inside the buffer. */
  method RawStopped(iter: Iterator, ghost start: nat, l: RawLocals, i: int, stop: RawStop, hasEscapes: bool)
    returns (rs: RawString, l': RawLocals, pass: Pass)
    requires iter.Valid() && iter.err == NoError && iter.head <= i < iter.tail
    requires RawState(iter.input, start, iter.Pos(), l)
    requires var q := iter.inputOffset + i;
      && hasEscapes == (l.hasEscapes || HasBackslash(iter.input, iter.Pos(), q))
      && (stop.ClosingQuote? ==> iter.input[q] == QUOTE)
      && (stop.UnicodeEscape? ==> hasEscapes)
      && !stop.EndOfBuffer?
    modifies iter, iter.buf
    ensures iter.Kept()
    ensures pass.Closed? ==>
              stop.ClosingQuote? && iter.err == NoError && iter.Pos() == old(iter.inputOffset) + i + 1
              && Holds(rs, iter, start, iter.Pos())
    ensures pass.More? ==> stop.UnicodeEscape? && iter.Pos() > old(iter.Pos())
    ensures pass.More? && iter.err == NoError ==>
              iter.Pos() == old(iter.inputOffset) + i + 5 && !l'.readingEscape
              && HexAt(iter.input, old(iter.inputOffset) + i + 1)
              && RawState(iter.input, start, iter.Pos(), l')
    ensures (pass.Failed? || iter.err != NoError) ==>
              stop.Invalid? || (stop.UnicodeEscape? && !HexAt(iter.input, old(iter.inputOffset) + i + 1))
  {
    hide iter.BufferValid, iter.ReaderValid, iter.CapturedTo, HasBackslash, Holds, HexAt;
    rs, l' := NilString, l;
    ghost var p, q := iter.Pos(), iter.inputOffset + i;
    if stop.ClosingQuote? {
      CopyMore(iter.input, start, p, q);
      rs := CloseRaw(iter, start, i, RawLocals(l.copied, false, hasEscapes));
      pass := Closed;
    } else if stop.UnicodeEscape? {
      var copied, ok := RawUnicodeEscape(iter, i, l.copied);
      l' := RawLocals(copied, false, hasEscapes);
      if ok && iter.err == NoError {
        CopyMore(iter.input, p, q, q + 5);
        RawStateMoves(iter.input, start, p, q + 5, l, l');
      }
      pass := if ok then More else Failed;
    } else {
      iter.ReportError();
      pass := Failed;
    }
  }

  /** One pass of `outerLoop` in `readRawStringInner`. */
  method RawPass(iter: Iterator, ghost start: nat, l: RawLocals)
    returns (rs: RawString, l': RawLocals, pass: Pass)
    requires iter.Valid() && iter.err == NoError
    requires RawState(iter.input, start, iter.Pos(), l)
    modifies iter, iter.buf
    ensures iter.Kept()
    ensures RawFrom(iter.input, old(iter.Pos()), l.readingEscape) ==
            if pass.Closed? then Some(iter.Pos())
            else if pass.Failed? || iter.err != NoError then None
            else RawFrom(iter.input, iter.Pos(), l'.readingEscape)
    ensures pass.Closed? ==> iter.err == NoError && Holds(rs, iter, start, iter.Pos())
    ensures pass.More? && iter.err == NoError ==> RawState(iter.input, start, iter.Pos(), l')
    ensures pass.More? && iter.Pos() == old(iter.Pos()) ==> old(iter.head == iter.tail) && iter.head < iter.tail
  {
    hide iter.BufferValid, iter.ReaderValid, iter.CapturedTo, HasBackslash, RawEnd, Holds, HexAt;
    var i, stop, escaped, hasEscapes := ScanRaw(iter, l.readingEscape, l.hasEscapes);
    if stop.EndOfBuffer? {
      var more;
      l', more := RawNextBuffer(iter, start, l, escaped, hasEscapes);
      return NilString, l', if more then More else Failed;
    }
    RawStepCorrect(iter.input, iter.inputOffset + i, escaped);
    rs, l', pass := RawStopped(iter, start, l, i, stop, hasEscapes);
  }

  /**
   * `readRawStringInner`: on any buffering it accepts exactly the strings of `RawEnd`, stops past the closing
   * quote, and holds the text between, as a view of the current buffer or as a copy.
   */
  method ReadRawStringInner(iter: Iterator) returns (rs: RawString)
    requires iter.Valid()
    modifies iter, iter.buf
    ensures iter.Kept()
    ensures old(iter.err) == NoError ==>
              match RawEnd(iter.input, old(iter.Pos()))
              case Some(end) => iter.Pos() == end && iter.err == NoError && Holds(rs, iter, old(iter.Pos()), end)
              case None => iter.err == Other && rs.NilString?
    ensures old(iter.err) != NoError ==> iter.err == Other && rs.NilString?
  {
    hide iter.BufferValid, iter.ReaderValid, iter.CapturedTo, HasBackslash, RawEnd, Holds;
    ghost var start := iter.Pos();
    var l := RawLocals([], false, false);
    NoBackslashInNothing(iter.input, start);
    while iter.err == NoError
      invariant iter.Kept()
      invariant old(iter.err) == NoError ==>
          RawEnd(iter.input, start) ==
            if iter.err == NoError then RawFrom(iter.input, iter.Pos(), l.readingEscape) else None
      invariant iter.err == NoError ==> RawState(iter.input, start, iter.Pos(), l)
      decreases |iter.input| - iter.Pos(), iter.head == iter.tail
    {
      var pass;
      rs, l, pass := RawPass(iter, start, l);
      if pass.Closed? {
        return;
      }
      if pass.Failed? {
        break;
      }
    }
    iter.ReportError();
    return NilString;
  }

  /** What every raw string the reader returns satisfies: its bytes are one string up to its closing quote. */
  ghost predicate IsString(rs: RawString)
    requires !rs.NilString? && rs.InBounds()
    reads if rs.View? then {rs.buf} else {}
  {
    && RawEnd(rs.Content(), 0) == Some(|rs.Content()|)
    && rs.hasEscapes == HasBackslash(rs.Content(), 0, |rs.Content()|)
  }

  /** A raw string just read is a string, and decodes to what decoding at its place in the input gives. */
  lemma RawAgreesWithDecoded(rs: RawString, iter: Iterator, p: nat, end: nat)
    requires RawEnd(iter.input, p) == Some(end) && Holds(rs, iter, p, end)
    ensures IsString(rs) && Decode(rs.Content(), 0).Ok?
    ensures Decode(iter.input, p) == Ok(Decode(rs.Content(), 0).value, end)
  {
    hide RawEnd, Decode;
    var text := rs.Content();
    assert text[0..0 + |text|] == text;
    RawEndLocal(iter.input, p, text, 0);
    RawEndIffDecode(iter.input, p);
    DecodeLocal(iter.input, p, text, 0);
  }

  /** `RawString.String`: the decoded text; its panic is unreachable. */
  method RawToString(rs: RawString) returns (str: seq<byte>)
    requires rs.InBounds() && (!rs.NilString? ==> IsString(rs))
    ensures rs.NilString? ==> str == []
    ensures !rs.NilString? ==> Decode(rs.Content(), 0) == Ok(str, |rs.Content()|)
  {
    hide RawEnd, Decode;
    if rs.NilString? {
      return [];
    }
    var text := rs.Content();
    if !rs.hasEscapes {
      assert text[0..|text|] == text && text[0..|text| - 1] == text[..|text| - 1];
      DecodePlain(text, 0);
      return text[..|text| - 1];
    }
    str := DecodeText(text);
  }

  /** The private iterator of `RawString.String`. */
  method DecodeText(text: seq<byte>) returns (str: seq<byte>)
    requires RawEnd(text, 0) == Some(|text|)
    ensures Decode(text, 0) == Ok(str, |text|)
  {
    hide RawEnd, Decode;
    RawEndIffDecode(text, 0);
    var data := new byte[|text|](k requires 0 <= k < |text| => text[k]);
    assert data[..] == text;
    var iter := new Iterator.ParseBytes(data, FloatParsers(_ => true, _ => true, _ => true));
    str := ReadStringInner(iter);
    // the original panics here on an error
    assert iter.err == NoError;
  }

  // ---------- Strings behind a token ----------

  /** `ReadString` */
  method ReadString(iter: Iterator) returns (str: seq<byte>)
    requires iter.Valid()
    modifies iter, iter.buf
    ensures iter.Kept()
    ensures old(iter.err) == NoError ==>
              match StringToken(iter.input, old(iter.Pos()))
              case Ok(v, next) => str == v && iter.Pos() == next && iter.err == NoError
              case Bad => iter.err == Other
    ensures SkipWhitespace(iter.input, old(iter.Pos())) == |iter.input| ==> iter.err == Other
  {
    hide iter.BufferValid, iter.ReaderValid, iter.CapturedTo, At, Decode;
    var c := iter.NextToken();
    if c == QUOTE {
      str := ReadStringInner(iter);
    } else if c == LOWER_N {
      SkipThreeBytes(iter, LOWER_U, LOWER_L, LOWER_L);
      str := [];
    } else {
      iter.UnreadByte();
      iter.ReportError();
      str := [];
    }
  }

  /** `ReadRawString` */
  method ReadRawString(iter: Iterator) returns (rs: RawString)
    requires iter.Valid()
    modifies iter, iter.buf
    ensures iter.Kept()
    ensures old(iter.err) == NoError ==>
              match RawTokenAt(iter.input, old(iter.Pos()))
              case RawText(from, to) => iter.Pos() == to && iter.err == NoError && Holds(rs, iter, from, to)
              case RawNull(to) => iter.Pos() == to && iter.err == NoError && rs.NilString?
              case RawError => iter.err == Other && rs.NilString?
    ensures old(iter.err) != NoError ==> rs.NilString?
    ensures SkipWhitespace(iter.input, old(iter.Pos())) == |iter.input| ==> iter.err == Other
  {
    hide iter.BufferValid, iter.ReaderValid, iter.CapturedTo, At, RawEnd, Holds;
    var c := iter.NextToken();
    if c == QUOTE {
      rs := ReadRawStringInner(iter);
    } else if c == LOWER_N {
      SkipThreeBytes(iter, LOWER_U, LOWER_L, LOWER_L);
      rs := NilString;
    } else {
      iter.UnreadByte();
      iter.ReportError();
      rs := NilString;
    }
  }
}

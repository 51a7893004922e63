/** iter.go: the cursor over buffered input, and the capture fields of iter_skip.go. */
module IterCore {
  import opened Bytes

  /** `Iterator.Error`: nil, io.EOF, or any other error. */
  datatype Error = NoError | EOF | Other

  type Failure = e: Error | e != NoError witness EOF

  const MAX_DEPTH := 10000

  function Flatten(chunks: seq<seq<byte>>): seq<byte> {
    if chunks == [] then [] else chunks[0] + Flatten(chunks[1..])
  }

  /** Where the buffer that holds position `j` ends: the one in use ends at `end`, and `chunks` are to come. */
  function ChunkEnd(end: nat, chunks: seq<seq<byte>>, j: nat): nat
    decreases |chunks|
  {
    if j < end || chunks == [] then end else ChunkEnd(end + |chunks[0]|, chunks[1..], j)
  }

  /** The same in a text that a reader delivers in chunks; without chunks the whole text is in the buffer. */
  function BufferEnd(s: seq<byte>, chunks: seq<seq<byte>>, j: nat): (end: nat)
    requires j < |s|
    ensures j < end <= |s|
  {
    var end := ChunkEnd(0, chunks, j);
    if j < end <= |s| then end else |s|
  }

  /**
   * `strconv.ParseFloat` at 32 and 64 bits, and `big.ParseFloat`, reduced to whether they accept a text.
   */
  datatype FloatParsers = FloatParsers(
    accepts32: seq<byte> -> bool, accepts64: seq<byte> -> bool, acceptsBig: seq<byte> -> bool)

  class Iterator {
    /** Everything the buffer and the reader ever deliver, in order. */
    ghost const input: seq<byte>
    /** How the reader splits it; nothing for a buffer that holds the whole input. */
    ghost const chunks: seq<seq<byte>>
    /** False when `reader` is nil and `buf` holds the whole input. */
    const fromReader: bool
    /** What the reader's remaining `Read` calls deliver; an empty chunk is a call that returns (0, nil). */
    var pending: seq<seq<byte>>
    /** The error the reader returns once `pending` is used up. */
    const lastError: Failure
    const parsers: FloatParsers
    const buf: array<byte>
    var head: int
    var tail: int
    var depth: int
    var captureStartedAt: int
    var captured: Option<seq<byte>>
    var inputOffset: int
    var err: Error

    ghost var capturePrefix: seq<byte>
    ghost var captureFrom: int
    /** No `loadMore` has failed on the reader since the capture began. */
    ghost var captureIntact: bool

    ghost predicate Valid()
      reads this, buf
    {
      && 0 <= head <= tail <= buf.Length
      && 0 <= inputOffset
      && inputOffset + tail <= |input|
      && BufferValid()
      && ReaderValid()
      && (captured.Some? ==> 0 <= captureStartedAt <= head && CapturedTo(inputOffset + captureStartedAt))
    }

    /** The buffer holds the input from `inputOffset` on. */
    ghost predicate BufferValid()
      reads `tail, `inputOffset, buf
    {
      && 0 <= tail <= buf.Length
      && 0 <= inputOffset <= inputOffset + tail <= |input|
      && forall k :: 0 <= k < tail ==> buf[k] == input[inputOffset + k]
    }

    /** The reader holds the rest of the input, in chunks that fit the buffer. */
    ghost predicate ReaderValid()
      reads `tail, `inputOffset, `pending
    {
      && 0 <= inputOffset + tail <= |input|
      && Flatten(pending) == input[inputOffset + tail..]
      && (forall c :: c in pending ==> |c| <= buf.Length)
      && (!fromReader ==> pending == [] && chunks == [])
      && (fromReader ==> ChunksBehind())
    }

    /** The buffer in use and those to come end where the chunks of the reader do. */
    ghost predicate ChunksBehind()
      requires 0 <= inputOffset + tail
      reads `tail, `inputOffset, `pending
    {
      forall j: nat :: inputOffset <= j ==> ChunkEnd(inputOffset + tail, pending, j) == ChunkEnd(0, chunks, j)
    }

    /** The saved part of an intact capture reaches from its start to position `end`. */
    ghost predicate CapturedTo(end: int)
      reads `captured, `capturePrefix, `captureFrom, `captureIntact
    {
      && 0 <= captureFrom
      && (!fromReader ==> captureIntact)
      && (captureIntact ==>
            && captured.Some?
            && captureFrom <= end <= |input|
            && captured.value == capturePrefix + input[captureFrom..end])
    }

    /** The position in `input` of the next unread byte. */
    function Pos(): int
      reads this
    {
      inputOffset + head
    }

    /** `InputOffset` */
    method InputOffset() returns (offset: int)
      ensures offset == Pos()
    {
      return inputOffset + head;
    }

    /** `unreadByte` can step back without leaving the buffer or the capture. */
    predicate CanUnread()
      reads this
    {
      head > 0 && (captured.Some? ==> head > captureStartedAt)
    }

    /** The value of `err` after a load that fails. */
    function Exhausted(e: Error): Failure {
      if e != NoError then e else if fromReader then lastError else EOF
    }

    /**
     * What every reading operation keeps: the cursor is not before `p`, an error other than io.EOF stays, and
     * an open capture stays open over the same start.
     */
    twostate predicate AdvancedFrom(p: int)
      reads this, buf
    {
      && Valid()
      && p <= Pos()
      && (old(err).Other? ==> err.Other?)
      && (captured.Some? <==> old(captured).Some?)
      && capturePrefix == old(capturePrefix)
      && captureFrom == old(captureFrom)
      && (captureIntact ==> old(captureIntact))
      && (!fromReader ==> captureIntact == old(captureIntact))
    }

    /** The cursor has only moved forward. */
    twostate predicate Advanced()
      reads this, buf
    {
      AdvancedFrom(old(Pos()))
    }

    /** `Advanced`, and moreover depth and a non-nil error are kept, and a broken capture shows as an error. */
    twostate predicate Kept()
      reads this, buf
    {
      && Advanced()
      && depth == old(depth)
      && (old(err) != NoError ==> err != NoError)
      && (err == NoError ==> captureIntact == old(captureIntact))
    }

    constructor ParseBytes(data: array<byte>, parsers: FloatParsers)
      ensures Valid() && buf == data && !fromReader && chunks == [] && input == data[..] && this.parsers == parsers
      ensures Pos() == 0 && tail == data.Length && depth == 0 && err == NoError && captured.None?
    {
      input, chunks, fromReader, pending, lastError := data[..], [], false, [], EOF;
      this.parsers, buf := parsers, data;
      head, tail, depth, captureStartedAt, captured, inputOffset, err := 0, data.Length, 0, 0, None, 0, NoError;
      capturePrefix, captureFrom, captureIntact := [], 0, true;
    }

    constructor Parse(chunks: seq<seq<byte>>, lastError: Failure, bufSize: nat, parsers: FloatParsers)
      requires forall c :: c in chunks ==> |c| <= bufSize
      ensures Valid() && fresh(buf) && fromReader && input == Flatten(chunks) && this.parsers == parsers
      ensures Pos() == 0 && tail == 0 && depth == 0 && err == NoError && captured.None? && this.chunks == chunks
    {
      input, this.chunks, fromReader, pending, this.lastError := Flatten(chunks), chunks, true, chunks, lastError;
      this.parsers, buf := parsers, new byte[bufSize](_ => 0);
      head, tail, depth, captureStartedAt, captured, inputOffset, err := 0, 0, 0, 0, None, 0, NoError;
      capturePrefix, captureFrom, captureIntact := [], 0, true;
    }

    /** `ReportError`: the first error other than io.EOF is kept. */
    method ReportError()
      modifies `err
      ensures err == Other
    {
      if err == NoError || err == EOF {
        err := Other;
      }
    }

    /** `reader.Read(iter.buf)` */
    method ReaderRead() returns (n: nat, e: Error)
      requires fromReader
      requires forall c :: c in pending ==> |c| <= buf.Length
      modifies `pending, buf
      ensures old(pending) == [] ==> n == 0 && e == lastError && pending == [] && buf[..] == old(buf[..])
      ensures old(pending) != [] ==>
                && e == NoError
                && n == |old(pending)[0]| <= buf.Length
                && pending == old(pending)[1..]
                && buf[..n] == old(pending)[0]
                && (n == 0 ==> buf[..] == old(buf[..]))
    {
      if pending == [] {
        return 0, lastError;
      }
      var chunk := pending[0];
      assert chunk in pending;
      pending := pending[1..];
      n, e := |chunk|, NoError;
      forall k | 0 <= k < n {
        buf[k] := chunk[k];
      }
    }

    /** The loop of `loadMore`: reads until some bytes arrive (`n > 0`) or the reader fails. */
    method ReadSome() returns (n: nat, e: Error)
      requires fromReader
      requires forall c :: c in pending ==> |c| <= buf.Length
      modifies `pending, buf
      ensures forall c :: c in pending ==> |c| <= buf.Length
      ensures n == 0 <==> Flatten(old(pending)) == []
      ensures n == 0 ==> e == lastError && buf[..] == old(buf[..]) && pending == []
      ensures n <= buf.Length && Flatten(old(pending)) == buf[..n] + Flatten(pending)
      ensures forall end: nat, j: nat :: end <= j ==>
                ChunkEnd(end, old(pending), j) == ChunkEnd(end + n, pending, j)
    {
      while true
        invariant forall c :: c in pending ==> |c| <= buf.Length
        invariant forall end: nat, j: nat :: end <= j ==>
            ChunkEnd(end, old(pending), j) == ChunkEnd(end, pending, j)
        invariant Flatten(pending) == Flatten(old(pending))
        invariant buf[..] == old(buf[..])
        decreases |pending|
      {
        n, e := ReaderRead();
        if n > 0 || e != NoError {
          return;
        }
      }
    }

    /**
     * `loadMore`: the bytes after `tail` become the buffer; what was between `head` and `tail` is dropped.
     * It fails exactly when the whole input has been delivered.
     */
    method LoadMore() returns (ok: bool)
      requires Valid()
      modifies this, buf
      ensures Kept()
      ensures ok <==> old(inputOffset + tail) < |input|
      ensures ok ==> head == 0 < tail && inputOffset == old(inputOffset + tail) && err == old(err)
      ensures ok ==> (captured.Some? ==> captureStartedAt == 0)
      ensures !ok ==> err == Exhausted(old(err)) && tail == old(tail) && inputOffset == old(inputOffset)
      ensures !ok && old(err) == NoError ==> err == if fromReader then lastError else EOF
      ensures !ok ==> head == if !fromReader && old(err) == NoError then tail else old(head)
      ensures !ok ==> buf[..] == old(buf[..])
    {
      hide BufferValid, CapturedTo, ChunksBehind;
      if !fromReader {
        if err == NoError {
          head := tail;
          err := EOF;
        }
        return false;
      }
      hide ReaderValid;
      CaptureBuffer();
      ok := Refill();
      if !ok && err == NoError {
        err := lastError;
      }
    }

    /** The first step of `loadMore` while capturing: the buffer's captured part is saved. */
    method CaptureBuffer()
      requires Valid()
      modifies `captured, `captureStartedAt
      ensures captured.Some? <==> old(captured).Some?
      ensures captured.Some? ==> captureStartedAt == 0 && CapturedTo(inputOffset + tail)
    {
      if captured.Some? {
        captured := Some(captured.value + buf[captureStartedAt..tail]);
        if captureIntact {
          assert buf[captureStartedAt..tail] == input[inputOffset + captureStartedAt..inputOffset + tail];
          SliceGrows(capturePrefix, input, captureFrom, inputOffset + captureStartedAt, inputOffset + tail);
        }
        captureStartedAt := 0;
      }
    }

    /** The loop of `loadMore`, and the moved buffer bounds when some bytes arrived. */
    method Refill() returns (ok: bool)
      requires fromReader && BufferValid() && ReaderValid() && 0 <= head <= tail
      requires captured.Some? ==> captureStartedAt == 0 && CapturedTo(inputOffset + tail)
      modifies `head, `tail, `inputOffset, `pending, `captureIntact, buf
      ensures Valid()
      ensures ok <==> old(inputOffset + tail) < |input|
      ensures ok ==> head == 0 < tail && inputOffset == old(inputOffset + tail)
      ensures !ok ==> head == old(head) && tail == old(tail) && inputOffset == old(inputOffset)
      ensures !ok ==> buf[..] == old(buf[..])
      ensures captureIntact == (old(captureIntact) && (ok || captured.None? || tail == 0))
    {
      hide CapturedTo, ChunkEnd, Flatten;
      ghost var end := inputOffset + tail;
      var n, e := ReadSome();
      if n == 0 {
        BufferStays();
        ChunksStay();
        BreakCapture();
        return false;
      }
      Delivered(end, n);
      inputOffset := inputOffset + tail;
      head := 0;
      tail := n;
      return true;
    }

    twostate lemma BufferStays()
      requires old(BufferValid()) && tail == old(tail) && inputOffset == old(inputOffset) && buf[..] == old(buf[..])
      ensures BufferValid()
    {
      assert forall k :: 0 <= k < tail ==> buf[k] == buf[..][k] == old(buf[..])[k];
    }

    twostate lemma ChunksStay()
      requires old(0 <= inputOffset + tail && ChunksBehind())
      requires tail == old(tail) && inputOffset == old(inputOffset)
      requires forall end: nat, j: nat :: end <= j ==> ChunkEnd(end, old(pending), j) == ChunkEnd(end, pending, j)
      ensures ChunksBehind()
    {
    }

    /** A load that fails on the reader while capturing leaves the saved part ahead of `captureStartedAt`. */
    ghost method BreakCapture()
      requires fromReader && 0 <= tail && 0 <= inputOffset
      requires captured.Some? ==> captureStartedAt == 0 && CapturedTo(inputOffset + tail)
      modifies `captureIntact
      ensures captured.Some? ==> CapturedTo(inputOffset + captureStartedAt)
      ensures captureIntact == (old(captureIntact) && (captured.None? || tail == 0))
    {
      captureIntact := captureIntact && (captured.None? || tail == 0);
    }

    /** Bytes just read from the reader are the next bytes of the input. */
    lemma Delivered(end: int, n: nat)
      requires 0 <= end <= |input| && n <= buf.Length
      requires input[end..] == buf[..n] + Flatten(pending)
      ensures end + n <= |input|
      ensures forall k :: 0 <= k < n ==> buf[k] == input[end + k]
      ensures Flatten(pending) == input[end + n..]
    {
      forall k | 0 <= k < n ensures buf[k] == input[end + k] {
        assert buf[..n][k] == input[end..][k];
      }
      assert input[end + n..] == input[end..][n..];
    }

    lemma BufferAt(k: int)
      requires BufferValid() && 0 <= k < tail
      ensures buf[k] == input[inputOffset + k]
    {
    }

    /** Without a reader the buffer reaches to the end of the input. */
    lemma FlatEnd()
      requires ReaderValid() && !fromReader
      ensures inputOffset + tail == |input|
    {
      assert |input[inputOffset + tail..]| == 0;
    }

    /** The buffer in use ends where the chunk of each of its bytes does. */
    lemma BufferEndHere(j: nat)
      requires BufferValid() && ReaderValid() && inputOffset <= j < inputOffset + tail
      ensures j < |input| && BufferEnd(input, chunks, j) == inputOffset + tail
    {
      if fromReader {
        assert ChunkEnd(0, chunks, j) == ChunkEnd(inputOffset + tail, pending, j);
      } else {
        FlatEnd();
      }
    }

    /** Without a reader no load can break a capture. */
    lemma FlatIsIntact()
      requires Valid() && captured.Some?
      ensures !fromReader ==> captureIntact
    {
    }

    lemma BufferSlice(lo: int, hi: int)
      requires BufferValid() && 0 <= lo <= hi <= tail
      ensures buf[lo..hi] == input[inputOffset + lo..inputOffset + hi]
    {
    }

    /** `readByte` */
    method ReadByte() returns (c: byte)
      requires Valid()
      modifies this, buf
      ensures Kept()
      ensures old(Pos()) < |input| ==>
                c == input[old(Pos())] && Pos() == old(Pos()) + 1 && err == old(err) && CanUnread()
      ensures old(Pos()) == |input| ==> c == 0 && Pos() == |input| && err == Exhausted(old(err))
    {
      hide BufferValid, ReaderValid, CapturedTo;
      if head == tail {
        var ok := LoadMore();
        if ok {
          BufferAt(head);
          c := buf[head];
          head := head + 1;
          return;
        }
        return 0;
      }
      BufferAt(head);
      c := buf[head];
      head := head + 1;
    }

    /** `unreadByte` */
    method UnreadByte()
      requires Valid()
      requires err == NoError ==> CanUnread()
      modifies `head
      ensures Valid()
      ensures head == if err != NoError then old(head) else old(head) - 1
    {
      hide BufferValid, ReaderValid, CapturedTo;
      if err != NoError {
        return;
      }
      head := head - 1;
    }

    /** `nextToken`: the next byte that is not whitespace; an input that has none gives 0 and an error. */
    method NextToken() returns (c: byte)
      requires Valid()
      modifies this, buf
      ensures Kept()
      ensures SkipWhitespace(input, old(Pos())) < |input| ==>
                && Pos() == SkipWhitespace(input, old(Pos())) + 1
                && c == input[Pos() - 1] && !IsWhitespace(c)
                && err == old(err) && CanUnread()
      ensures SkipWhitespace(input, old(Pos())) == |input| ==>
                && c == 0 && err == Exhausted(old(err)) && SkipWhitespace(input, Pos()) == |input|
      ensures old(head < tail && !IsWhitespace(buf[head])) ==>
                && buf[..] == old(buf[..]) && inputOffset == old(inputOffset) && tail == old(tail)
    {
      hide BufferValid, ReaderValid, CapturedTo, SkipWhitespace, IsWhitespace;
      if head < tail {
        BufferAt(head);
      }
      var found;
      c, found := TokenInBuffer();
      if !found {
        c := TokenFromReader();
      }
    }

    /** The rest of `nextToken`, when the buffer holds nothing more but whitespace. */
    method TokenFromReader() returns (c: byte)
      requires Valid() && SkipWhitespace(input, inputOffset + tail) == SkipWhitespace(input, Pos())
      modifies this, buf
      ensures Kept()
      ensures SkipWhitespace(input, old(Pos())) < |input| ==>
                && Pos() == SkipWhitespace(input, old(Pos())) + 1
                && c == input[Pos() - 1] && !IsWhitespace(c)
                && err == old(err) && CanUnread()
      ensures SkipWhitespace(input, old(Pos())) == |input| ==>
                && c == 0 && err == Exhausted(old(err)) && SkipWhitespace(input, Pos()) == |input|
    {
      hide BufferValid, ReaderValid, CapturedTo, SkipWhitespace, IsWhitespace;
      var found := false;
      c := 0;
      while !found
        invariant Kept() && err == old(err)
        invariant found ==> Pos() == SkipWhitespace(input, old(Pos())) + 1 <= |input| && CanUnread()
        invariant found ==> c == input[Pos() - 1] && !IsWhitespace(c)
        invariant !found ==> SkipWhitespace(input, inputOffset + tail) == SkipWhitespace(input, old(Pos()))
        decreases |input| - inputOffset - tail, !found
      {
        var ok;
        c, found, ok := TokenAfterLoad();
        if !ok {
          return 0;
        }
      }
    }

    /** One more load in `nextToken`, and the loop over what it brings. */
    method TokenAfterLoad() returns (c: byte, found: bool, ok: bool)
      requires Valid()
      modifies this, buf
      ensures Kept()
      ensures ok <==> old(inputOffset + tail) < |input|
      ensures !ok ==> err == Exhausted(old(err)) && (Pos() == old(Pos()) || Pos() == |input|)
      ensures ok ==> err == old(err) && inputOffset == old(inputOffset + tail)
      ensures ok && found ==> Pos() == SkipWhitespace(input, inputOffset) + 1 <= |input| && CanUnread()
      ensures ok && found ==> c == input[Pos() - 1] && !IsWhitespace(c)
      ensures ok && !found ==> SkipWhitespace(input, inputOffset + tail) == SkipWhitespace(input, inputOffset)
      ensures ok && !IsWhitespace(input[old(inputOffset + tail)]) ==> found
      ensures ok ==> inputOffset + tail > old(inputOffset + tail)
    {
      hide BufferValid, ReaderValid, CapturedTo, SkipWhitespace, IsWhitespace;
      ok := LoadMore();
      if !ok {
        FullyDelivered();
        return 0, false, false;
      }
      BufferAt(head);
      c, found := TokenInBuffer();
    }

    /** A cursor behind which only whitespace is buffered, when nothing more arrives. */
    lemma FullyDelivered()
      requires Valid() && inputOffset + tail == |input|
      ensures SkipWhitespace(input, inputOffset + tail) == |input|
    {
    }

    /** The loop of `nextToken` over one buffer. */
    method TokenInBuffer() returns (c: byte, found: bool)
      requires Valid()
      modifies `head
      ensures Valid() && old(head) <= head
      ensures found ==> head > old(head) && Pos() == SkipWhitespace(input, old(Pos())) + 1 <= |input|
      ensures found ==> c == input[Pos() - 1] && !IsWhitespace(c)
      ensures !found ==> head == old(head) && SkipWhitespace(input, inputOffset + tail) == SkipWhitespace(input, Pos())
      ensures old(head) < tail && !IsWhitespace(input[old(Pos())]) ==> found
    {
      hide BufferValid, ReaderValid, CapturedTo;
      var i := ScanSpace();
      found, c := i < tail, 0;
      if found {
        BufferAt(i);
        c := buf[i];
        head := i + 1;
      }
    }

    /** The index of the first byte in the buffer that is no whitespace. */
    method ScanSpace() returns (i: int)
      requires Valid()
      ensures head <= i <= tail
      ensures SkipWhitespace(input, inputOffset + i) == SkipWhitespace(input, Pos())
      ensures i < tail ==> !IsWhitespace(buf[i]) && SkipWhitespace(input, Pos()) == inputOffset + i
      ensures head < tail && !IsWhitespace(buf[head]) ==> i == head
    {
      hide BufferValid, ReaderValid, CapturedTo;
      i := head;
      while i < tail
        invariant head <= i <= tail
        invariant SkipWhitespace(input, inputOffset + i) == SkipWhitespace(input, Pos())
        invariant head < tail && !IsWhitespace(buf[head]) ==> i == head
      {
        BufferAt(i);
        if !IsWhitespace(buf[i]) {
          return;
        }
        i := i + 1;
      }
    }

    /** `isNextTokenBuffered`: true moves `head` to the next token, which is in the buffer already. */
    method IsNextTokenBuffered() returns (r: bool)
      requires Valid()
      modifies `head
      ensures Valid() && old(head) <= head
      ensures SkipWhitespace(input, Pos()) == SkipWhitespace(input, old(Pos()))
      ensures r ==> head < tail && !IsWhitespace(buf[head])
      ensures !r ==> head == old(head)
    {
      hide BufferValid, ReaderValid, CapturedTo;
      if head >= tail {
        return false;
      }
      var i := ScanSpace();
      if i < tail {
        BufferAt(i);
        head := i;
        return true;
      }
      return false;
    }

    /** `incrementDepth` */
    method IncrementDepth() returns (ok: bool)
      requires Valid()
      modifies `depth, `err
      ensures Valid() && depth == old(depth) + 1 && ok == (depth <= MAX_DEPTH)
      ensures err == if ok then old(err) else Other
    {
      hide BufferValid, ReaderValid, CapturedTo;
      depth := depth + 1;
      if depth <= MAX_DEPTH {
        return true;
      }
      ReportError();
      return false;
    }

    /** `decrementDepth` */
    method DecrementDepth() returns (ok: bool)
      requires Valid()
      modifies `depth, `err
      ensures Valid() && depth == old(depth) - 1 && ok == (depth >= 0)
      ensures err == if ok then old(err) else Other
    {
      hide BufferValid, ReaderValid, CapturedTo;
      depth := depth - 1;
      if depth >= 0 {
        return true;
      }
      ReportError();
      return false;
    }

    /** `startCaptureTo` */
    method StartCaptureTo(prefix: seq<byte>, at: int)
      requires Valid() && captured.None?
      requires 0 <= at <= head
      modifies `captureStartedAt, `captured, `capturePrefix, `captureFrom, `captureIntact
      ensures Valid() && captured.Some? && captureIntact && captureStartedAt == at
      ensures capturePrefix == prefix && captureFrom == inputOffset + at
    {
      captureStartedAt := at;
      captured := Some(prefix);
      capturePrefix, captureFrom, captureIntact := prefix, inputOffset + at, true;
    }

    /**
     * `stopCapture`: the prefix given at the start, then exactly the input between the two offsets, however
     * many times the buffer was refilled in between.
     */
    method StopCapture() returns (text: seq<byte>)
      requires Valid() && captured.Some?
      modifies `captureStartedAt, `captured
      ensures Valid() && captured.None?
      ensures captureIntact ==> captureFrom <= Pos() && text == capturePrefix + input[captureFrom..Pos()]
    {
      var remaining := buf[captureStartedAt..head];
      text := captured.value + remaining;
      if captureIntact {
        assert remaining == input[inputOffset + captureStartedAt..Pos()];
      }
      captureStartedAt, captured := -1, None;
    }
  }
}

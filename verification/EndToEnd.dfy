/** Whole documents through the reader and the writer, on any buffering. */
module EndToEnd {
  import opened Bytes
  import opened FloatMachines
  import opened IterCore
  import opened ValueMachines
  import opened NumberSkips
  import opened Grammar
  import opened NumberForms
  import opened DocTheorems
  import opened AcceptTheorems
  import opened DepthTheorems
  import opened BufferTheorems
  import opened SloppyMachines
  import opened StreamCore
  import opened Trees
  import opened TreeTheorems
  import opened Containers
  import Sloppy = IterSkipSloppy

  // ---------- Capturing ----------

  /**
   * `SkipAndAppendBytes`: what is appended to `buf` is the input between the two cursor positions, unless a load
   * failed; for a value that can be skipped that is exactly the value and the whitespace in front of it.
   */
  method SkipAndAppendBytes(iter: Iterator, buf: seq<byte>) returns (bytes: seq<byte>)
    requires iter.Valid() && iter.captured.None? && iter.depth >= 0
    modifies iter, iter.buf
    ensures iter.Valid() && iter.captured.None?
    ensures iter.captureIntact ==>
              old(iter.Pos()) <= iter.Pos() && bytes == buf + iter.input[old(iter.Pos())..iter.Pos()]
    ensures !iter.fromReader ==> iter.captureIntact
    ensures old(iter.err) == NoError ==>
              match ValueAt(iter.input, old(iter.Pos()), old(iter.depth), ModeOf(iter, Skipping))
              case Done(_, next) =>
                && iter.Pos() == next && iter.err == NoError && iter.depth == old(iter.depth) && iter.captureIntact
              case Fails => iter.err != NoError
  {
    hide iter.BufferValid, iter.ReaderValid, iter.CapturedTo, ValueAt;
    iter.StartCaptureTo(buf, iter.head);
    Skip(iter);
    iter.FlatIsIntact();
    bytes := iter.StopCapture();
  }

  /** `SkipAndReturnBytes` */
  method SkipAndReturnBytes(iter: Iterator) returns (bytes: seq<byte>)
    requires iter.Valid() && iter.captured.None? && iter.depth >= 0
    modifies iter, iter.buf
    ensures iter.Valid() && iter.captured.None?
    ensures iter.captureIntact ==> old(iter.Pos()) <= iter.Pos() && bytes == iter.input[old(iter.Pos())..iter.Pos()]
    ensures old(iter.err) == NoError ==>
              match ValueAt(iter.input, old(iter.Pos()), old(iter.depth), ModeOf(iter, Skipping))
              case Done(_, next) =>
                && iter.Pos() == next && iter.err == NoError && iter.depth == old(iter.depth) && iter.captureIntact
              case Fails => iter.err != NoError
  {
    hide iter.BufferValid, iter.ReaderValid, iter.CapturedTo, ValueAt;
    bytes := SkipAndAppendBytes(iter, []);
    if iter.captureIntact {
      assert [] + iter.input[old(iter.Pos())..iter.Pos()] == iter.input[old(iter.Pos())..iter.Pos()];
    }
  }

  // ---------- Documents ----------

  /** The document `d` is the next thing the cursor reads, nested within the limit. */
  ghost predicate DocumentNext(iter: Iterator, d: Doc)
    reads iter
  {
    && 0 <= iter.Pos() <= |iter.input| && 0 <= iter.depth && iter.err == NoError
    && WellFormed(d) && iter.depth + Nesting(d) <= MAX_DEPTH
    && At(iter.input, SkipWhitespace(iter.input, iter.Pos()), Text(d))
    && var e := SkipWhitespace(iter.input, iter.Pos()) + |Text(d)|;
       d.DNumber? ==> e < |iter.input| && IsDelimiter(iter.input[e])
  }

  /** Skipping a document on any buffering consumes exactly its bytes. */
  method SkipDocument(iter: Iterator, ghost d: Doc)
    requires iter.Valid() && DocumentNext(iter, d) && IsSkippable(d, ModeOf(iter, Skipping))
    modifies iter, iter.buf
    ensures iter.Valid() && iter.err == NoError && iter.depth == old(iter.depth)
    ensures iter.Pos() == SkipWhitespace(iter.input, old(iter.Pos())) + |Text(d)|
  {
    hide iter.BufferValid, iter.ReaderValid, iter.CapturedTo, ValueFrom, At, Text, WellFormed, Nesting, IsSkippable;
    ValueThere(d, iter.input, SkipWhitespace(iter.input, iter.Pos()), iter.depth, ModeOf(iter, Skipping));
    Skip(iter);
  }

  /**
   * The sloppy skipper stops at the same byte, whatever strconv thinks of the numbers; it is asked only for a
   * document that is itself a number and begins with a zero.
   */
  method SkipDocumentSloppily(iter: Iterator, ghost d: Doc)
    requires iter.Valid() && DocumentNext(iter, d)
    requires d.DNumber? && d.text != [] && d.text[0] == ZERO ==> IsSkippable(d, ModeOf(iter, Skipping))
    modifies iter, iter.buf
    ensures iter.Valid() && iter.err == NoError && iter.depth == old(iter.depth)
    ensures iter.Pos() == SkipWhitespace(iter.input, old(iter.Pos())) + |Text(d)|
  {
    hide iter.BufferValid, iter.ReaderValid, iter.CapturedTo, ValueFrom, SloppyFrom, At, Text, WellFormed, Nesting,
         IsSkippable, IsShaped, IsStrict, NumberPasses;
    ghost var j := SkipWhitespace(iter.input, iter.Pos());
    WellFormedIff(d);
    DelimitedPasses(d, j, ByteAt(iter.input, j + |Text(d)|), ModeOf(iter, Skipping));
    SloppyThere(d, iter.input, j, iter.depth, ModeOf(iter, Skipping));
    Sloppy.Skip(iter);
  }

  lemma DelimitedPasses(d: Doc, j: nat, next: Option<byte>, m: Mode)
    requires WellFormed(d) && m.visitor.Skipping? && (d.DNumber? ==> next.Some? && IsDelimiter(next.value))
    requires d.DNumber? && d.text != [] && d.text[0] == ZERO ==> IsSkippable(d, m)
    ensures NumberPasses(d, j, next, m)
  {
    hide IsTakenNumber, IsSkippableNumber, IsNumberText;
    if d.DNumber? && d.text != [] && d.text[0] == ZERO {
      WellFormedParts(d);
      SkippableNumberIsTaken(d.text, j, next, m);
    }
  }

  /** Skipping in a flat buffer, whatever the size of the numbers, as long as they have no exponent. */
  method SkipExponentFree(iter: Iterator, ghost d: Doc)
    requires iter.Valid() && iter.chunks == [] && DocumentNext(iter, d)
    requires HasNoExponents(d) && ParsesSmall(iter.parsers)
    modifies iter, iter.buf
    ensures iter.Valid() && iter.err == NoError && iter.depth == old(iter.depth)
    ensures iter.Pos() == SkipWhitespace(iter.input, old(iter.Pos())) + |Text(d)|
  {
    hide iter.BufferValid, iter.ReaderValid, iter.CapturedTo, At, Text, Nesting, IsSkippable, ParsesSmall;
    ExponentFreeIsSkippable(d, ModeOf(iter, Skipping));
    SkipDocument(iter, d);
  }

  /** Reading a document on any buffering returns its value. */
  method ReadDocument(iter: Iterator, ghost d: Doc) returns (value: Value)
    requires iter.Valid() && DocumentNext(iter, d)
    modifies iter, iter.buf
    ensures iter.Valid() && iter.err == NoError && iter.depth == old(iter.depth)
    ensures iter.Pos() == SkipWhitespace(iter.input, old(iter.Pos())) + |Text(d)|
    ensures value == ValueOf(d, ModeOf(iter, Reading))
  {
    hide iter.BufferValid, iter.ReaderValid, iter.CapturedTo, ValueFrom, At, Text, WellFormed, Nesting, IsSkippable,
         ValueOf;
    EverythingIsReadable(d, ModeOf(iter, Reading));
    ValueThere(d, iter.input, SkipWhitespace(iter.input, iter.Pos()), iter.depth, ModeOf(iter, Reading));
    value := Read(iter);
  }

  // ---------- Any input ----------

  /** Some document whose numbers are taken stands at the next token, and ends at `e`. */
  ghost predicate SomeDocument(s: seq<byte>, i: nat, e: nat, depth: int, m: Mode)
    requires i <= |s|
  {
    exists d :: StandsAt(d, s, SkipWhitespace(s, i), e, depth, m)
  }

  lemma DocumentIff(s: seq<byte>, i: nat, depth: int, m: Mode)
    requires i <= |s| && depth <= MAX_DEPTH
    ensures var r := ValueAt(s, i, depth, m);
      && (r.Done? ==> SomeDocument(s, i, r.next, depth, m))
      && (forall e :: SomeDocument(s, i, e, depth, m) ==> r.Done? && r.next == e)
  {
    hide ValueFrom, StandsAt, ValueOf;
    var j := SkipWhitespace(s, i);
    if j < |s| && ValueFrom(s, j, depth, m).Done? {
      TakenIff(s, j, depth, m, ValueFrom(s, j, depth, m).value, ValueFrom(s, j, depth, m).next);
    }
    forall e | SomeDocument(s, i, e, depth, m)
      ensures var r := ValueAt(s, i, depth, m); r.Done? && r.next == e
    {
      var d :| StandsAt(d, s, j, e, depth, m);
      StandsSomewhere(d, s, j, e, depth, m);
      TakenIff(s, j, depth, m, ValueOf(d, m), e);
    }
  }

  lemma StandsSomewhere(d: Doc, s: seq<byte>, j: nat, e: nat, depth: int, m: Mode)
    requires StandsAt(d, s, j, e, depth, m)
    ensures j < |s|
  {
    hide At, Text, Nesting, IsShaped, NumbersTaken;
    ValueBegins(d, s, j);
  }

  /**
   * `Skip` on any input and any buffering: it succeeds exactly if a document whose numbers are taken comes next,
   * nested within the limit, and stops behind it.
   */
  method SkipAnything(iter: Iterator)
    requires iter.Valid() && iter.err == NoError && 0 <= iter.depth <= MAX_DEPTH
    modifies iter, iter.buf
    ensures iter.Valid()
    ensures forall e :: SomeDocument(iter.input, old(iter.Pos()), e, old(iter.depth), ModeOf(iter, Skipping)) <==>
                        iter.err == NoError && iter.Pos() == e
  {
    hide iter.BufferValid, iter.ReaderValid, iter.CapturedTo, ValueAt, SomeDocument, NumberSkipped;
    DocumentIff(iter.input, iter.Pos(), iter.depth, ModeOf(iter, Skipping));
    Skip(iter);
  }

  /** `Read` on any input and any buffering: it succeeds exactly if a document whose numbers are runs comes next. */
  method ReadAnything(iter: Iterator) returns (value: Value)
    requires iter.Valid() && iter.err == NoError && 0 <= iter.depth <= MAX_DEPTH
    modifies iter, iter.buf
    ensures iter.Valid()
    ensures forall e :: SomeDocument(iter.input, old(iter.Pos()), e, old(iter.depth), ModeOf(iter, Reading)) <==>
                        iter.err == NoError && iter.Pos() == e
  {
    hide iter.BufferValid, iter.ReaderValid, iter.CapturedTo, ValueAt, SomeDocument, Stuck;
    DocumentIff(iter.input, iter.Pos(), iter.depth, ModeOf(iter, Reading));
    value := Read(iter);
  }

  // ---------- Any split is as good as one buffer ----------

  /** What `Read` at the start of an input returned: a value and the offset behind it, or an error. */
  ghost predicate ReadAll(s: seq<byte>, m: Mode, value: Value, err: Error, offset: int) {
    match ValueAt(s, 0, 0, m)
    case Done(v, next) => value == v && err == NoError && offset == next
    case Fails => err != NoError
  }

  method ReadFlat(data: array<byte>, parsers: FloatParsers) returns (value: Value, err: Error, offset: int)
    modifies data
    ensures ReadAll(old(data[..]), Mode(Reading, [], parsers), value, err, offset)
  {
    hide ValueAt, Stuck;
    var iter := new Iterator.ParseBytes(data, parsers);
    value := Read(iter);
    err := iter.err;
    offset := iter.InputOffset();
  }

  method ReadChunks(chunks: seq<seq<byte>>, lastError: Failure, bufSize: nat, parsers: FloatParsers)
    returns (value: Value, err: Error, offset: int)
    requires forall c :: c in chunks ==> |c| <= bufSize
    ensures ReadAll(Flatten(chunks), Mode(Reading, chunks, parsers), value, err, offset)
  {
    hide ValueAt, Stuck;
    var iter := new Iterator.Parse(chunks, lastError, bufSize, parsers);
    value := Read(iter);
    err := iter.err;
    offset := iter.InputOffset();
  }

  /**
   * Every input, valid or not, split into chunks in any way: reading it chunk by chunk succeeds exactly when
   * reading it from one buffer does, with the same value and the same offset behind it.
   */
  method ReadBothWays(data: array<byte>, chunks: seq<seq<byte>>, lastError: Failure, bufSize: nat,
                      parsers: FloatParsers)
    returns (flat: Value, chunked: Value, flatErr: Error, chunkedErr: Error, flatOffset: int, chunkedOffset: int)
    requires Flatten(chunks) == data[..]
    requires forall c :: c in chunks ==> |c| <= bufSize
    modifies data
    ensures flatErr == NoError <==> chunkedErr == NoError
    ensures flatErr == NoError ==> flat == chunked && flatOffset == chunkedOffset
    ensures flatErr == NoError <==> ValueAt(old(data[..]), 0, 0, Mode(Reading, [], parsers)).Done?
  {
    hide ValueAt;
    ghost var s := data[..];
    flat, flatErr, flatOffset := ReadFlat(data, parsers);
    chunked, chunkedErr, chunkedOffset := ReadChunks(chunks, lastError, bufSize, parsers);
    ReadIgnoresBuffering(s, 0, 0, Mode(Reading, [], parsers), Mode(Reading, chunks, parsers));
  }

  // ---------- Writing and reading back ----------

  /**
   * A tree with unique names, written at any indention, followed by anything, delivered in any chunks: `Read`
   * gives the same tree and stops behind it, and the writer's indention and the reader's depth are restored.
   */
  method WriteAndRead(t: Tree, step: nat, compact: bool, after: seq<byte>, split: seq<byte> -> seq<seq<byte>>,
                      lastError: Failure, bufSize: nat, parsers: FloatParsers)
    returns (value: Value, stream: Stream, iter: Iterator)
    requires IsWritable(t) && HasUniqueNames(t) && Height(t) <= MAX_DEPTH
    requires t.TNumber? ==> after != [] && IsDelimiter(after[0])
    requires forall s :: Flatten(split(s)) == s && forall c :: c in split(s) ==> |c| <= bufSize
    ensures Represents(value, t)
    ensures iter.Valid() && iter.err == NoError && iter.depth == 0 && stream.indention == 0
    ensures iter.input == stream.buf + after && iter.Pos() == |stream.buf|
  {
    hide Represents, IsWritable, HasUniqueNames, Height, ValueAt;
    stream := new Stream(step);
    WriteTree(stream, t, compact);
    WrittenIsThere(t, step, compact, stream.buf, after);
    iter := new Iterator.Parse(split(stream.buf + after), lastError, bufSize, parsers);
    WrittenReads(t, step, compact, stream.buf, after, ModeOf(iter, Reading));
    value := Read(iter);
  }

  /** The text of a tree in front of anything. */
  lemma WrittenIsThere(t: Tree, step: nat, compact: bool, buf: seq<byte>, after: seq<byte>)
    requires buf == [] + Text(DocOf(t, 0, Layout(step, compact)))
    ensures var text := Text(DocOf(t, 0, Layout(step, compact))); At(buf + after, 0, text) && |buf| == |text|
  {
    hide Text, DocOf;
    assert (buf + after)[0..|buf|] == buf == Text(DocOf(t, 0, Layout(step, compact)));
  }

  lemma WrittenReads(t: Tree, step: nat, compact: bool, buf: seq<byte>, after: seq<byte>, m: Mode)
    requires IsWritable(t) && HasUniqueNames(t) && Height(t) <= MAX_DEPTH && m.visitor.Reading?
    requires t.TNumber? ==> after != [] && IsDelimiter(after[0])
    requires var text := Text(DocOf(t, 0, Layout(step, compact))); At(buf + after, 0, text) && |buf| == |text|
    ensures var r := ValueAt(buf + after, 0, 0, m); r.Done? && Represents(r.value, t) && r.next == |buf|
  {
    hide Text, DocOf, At, Represents, IsWritable, HasUniqueNames, Height, ValueFrom, IsShaped, IsStrict, WellFormed;
    var s := buf + after;
    var l := Layout(step, compact);
    DocumentRoundTrip(t, 0, l, s, 0, 0, m);
    WrittenIsWellFormed(t, 0, l);
    WellFormedIff(DocOf(t, 0, l));
    ValueBegins(DocOf(t, 0, l), s, 0);
    SkipNothing(s, 0);
  }
}

/** stream.go: the writers of literals, objects and arrays, and their indention. */
module StreamWrite {
  import opened Bytes
  import opened StreamCore
  import opened StreamStr

  function Spaces(n: int): (w: seq<byte>)
    ensures |w| == if n < 0 then 0 else n
    ensures forall k :: 0 <= k < |w| ==> w[k] == SPACE
  {
    if n <= 0 then [] else Spaces(n - 1) + [SPACE]
  }

  /** A line break and the spaces of one line, unless nothing is indented. */
  function Indent(indention: int, delta: int): seq<byte> {
    if indention == 0 then [] else [LINE_FEED] + Spaces(indention - delta)
  }

  /** `writeIndention` */
  method WriteIndention(stream: Stream, delta: int)
    modifies stream`buf
    ensures stream.buf == old(stream.buf) + Indent(stream.indention, delta)
  {
    if stream.indention == 0 {
      return;
    }
    stream.WriteByte(LINE_FEED);
    ghost var base := stream.buf;
    var toWrite := stream.indention - delta;
    var i := 0;
    while i < toWrite
      invariant stream.buf == base + Spaces(i)
      invariant toWrite >= 0 ==> i <= toWrite
      invariant toWrite < 0 ==> i == 0
    {
      stream.buf := stream.buf + [SPACE];
      i := i + 1;
    }
  }

  /** `WriteNil` */
  method WriteNil(stream: Stream)
    modifies stream`buf
    ensures stream.buf == old(stream.buf) + ([LOWER_N] + ULL)
  {
    stream.buf := stream.buf + [LOWER_N, LOWER_U, LOWER_L, LOWER_L];
    assert [LOWER_N] + ULL == [LOWER_N, LOWER_U, LOWER_L, LOWER_L];
  }

  /** `WriteBool` */
  method WriteBool(stream: Stream, val: bool)
    modifies stream`buf
    ensures stream.buf == old(stream.buf) + if val then [LOWER_T] + RUE else [LOWER_F] + ALSE
  {
    if val {
      stream.buf := stream.buf + [LOWER_T, LOWER_R, LOWER_U, LOWER_E];
      assert [LOWER_T] + RUE == [LOWER_T, LOWER_R, LOWER_U, LOWER_E];
    } else {
      stream.buf := stream.buf + [LOWER_F, LOWER_A, LOWER_L, LOWER_S, LOWER_E];
      assert [LOWER_F] + ALSE == [LOWER_F, LOWER_A, LOWER_L, LOWER_S, LOWER_E];
    }
  }

  /** `WriteObjectStart` */
  method WriteObjectStart(stream: Stream)
    modifies stream
    ensures stream.indention == old(stream.indention) + stream.indentionStep
    ensures stream.buf == old(stream.buf) + [OPEN_BRACE] + Indent(stream.indention, 0)
  {
    stream.indention := stream.indention + stream.indentionStep;
    stream.WriteByte(OPEN_BRACE);
    WriteIndention(stream, 0);
  }

  /** `WriteObjectField` */
  method WriteObjectField(stream: Stream, field: seq<byte>)
    modifies stream`buf
    ensures stream.buf == old(stream.buf) + [QUOTE] + EscapeAll(field) + [QUOTE]
                          + if stream.indention > 0 then [COLON, SPACE] else [COLON]
  {
    WriteString(stream, field);
    if stream.indention > 0 {
      stream.WriteTwoBytes(COLON, SPACE);
    } else {
      stream.WriteByte(COLON);
    }
  }

  /** `WriteObjectEnd` */
  method WriteObjectEnd(stream: Stream)
    modifies stream
    ensures stream.indention == old(stream.indention) - stream.indentionStep
    ensures stream.buf == old(stream.buf) + Indent(old(stream.indention), stream.indentionStep) + [CLOSE_BRACE]
  {
    WriteIndention(stream, stream.indentionStep);
    stream.indention := stream.indention - stream.indentionStep;
    stream.WriteByte(CLOSE_BRACE);
  }

  /** `WriteEmptyObject` */
  method WriteEmptyObject(stream: Stream)
    modifies stream`buf
    ensures stream.buf == old(stream.buf) + [OPEN_BRACE, CLOSE_BRACE]
  {
    stream.WriteByte(OPEN_BRACE);
    stream.WriteByte(CLOSE_BRACE);
  }

  /** `WriteMore` */
  method WriteMore(stream: Stream)
    modifies stream`buf
    ensures stream.buf == old(stream.buf) + [COMMA] + Indent(stream.indention, 0)
  {
    stream.WriteByte(COMMA);
    WriteIndention(stream, 0);
  }

  /** `WriteArrayStart` */
  method WriteArrayStart(stream: Stream)
    modifies stream
    ensures stream.indention == old(stream.indention) + stream.indentionStep
    ensures stream.buf == old(stream.buf) + [OPEN_BRACKET] + Indent(stream.indention, 0)
  {
    stream.indention := stream.indention + stream.indentionStep;
    stream.WriteByte(OPEN_BRACKET);
    WriteIndention(stream, 0);
  }

  /** `WriteEmptyArray` */
  method WriteEmptyArray(stream: Stream)
    modifies stream`buf
    ensures stream.buf == old(stream.buf) + [OPEN_BRACKET, CLOSE_BRACKET]
  {
    stream.WriteTwoBytes(OPEN_BRACKET, CLOSE_BRACKET);
  }

  /** `WriteArrayEnd` */
  method WriteArrayEnd(stream: Stream)
    modifies stream
    ensures stream.indention == old(stream.indention) - stream.indentionStep
    ensures stream.buf == old(stream.buf) + Indent(old(stream.indention), stream.indentionStep) + [CLOSE_BRACKET]
  {
    WriteIndention(stream, stream.indentionStep);
    stream.indention := stream.indention - stream.indentionStep;
    stream.WriteByte(CLOSE_BRACKET);
  }
}

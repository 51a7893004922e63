/** stream.go: the output buffer and its raw appends. */
module StreamCore {
  import opened Bytes

  /** A stream without an `io.Writer`: everything stays in `buf`. */
  class Stream {
    var buf: seq<byte>
    var indention: int
    const indentionStep: nat

    constructor (indentionStep: nat)
      ensures buf == [] && indention == 0 && this.indentionStep == indentionStep
    {
      buf, indention := [], 0;
      this.indentionStep := indentionStep;
    }

    /** `writeByte` */
    method WriteByte(c: byte)
      modifies `buf
      ensures buf == old(buf) + [c]
    {
      buf := buf + [c];
    }

    /** `writeTwoBytes` */
    method WriteTwoBytes(c1: byte, c2: byte)
      modifies `buf
      ensures buf == old(buf) + [c1, c2]
    {
      buf := buf + [c1, c2];
    }

    /** `WriteRaw` */
    method WriteRaw(s: seq<byte>)
      modifies `buf
      ensures buf == old(buf) + s
    {
      buf := buf + s;
    }
  }
}

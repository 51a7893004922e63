/** iter_skip.go: the readers of the rest of a literal. */
module Literals {
  import opened Bytes
  import opened IterCore

  lemma AtThree(s: seq<byte>, p: nat, b1: byte, b2: byte, b3: byte)
    ensures At(s, p, [b1, b2, b3]) <==> p + 3 <= |s| && s[p] == b1 && s[p + 1] == b2 && s[p + 2] == b3
  {
    if p + 3 <= |s| {
      assert s[p..p + 3] == [s[p], s[p + 1], s[p + 2]];
    }
  }

  /** One `readByte() != b` test: the byte at the cursor is `b`, or an error is reported. */
  method ExpectByte(iter: Iterator, b: byte) returns (ok: bool)
    requires iter.Valid() && b != 0
    modifies iter, iter.buf
    ensures iter.Kept()
    ensures ok <==> old(iter.Pos()) < |iter.input| && iter.input[old(iter.Pos())] == b
    ensures if ok then iter.Pos() == old(iter.Pos()) + 1 && iter.err == old(iter.err) else iter.err == Other
  {
    hide iter.BufferValid, iter.ReaderValid, iter.CapturedTo;
    var c := iter.ReadByte();
    if c != b {
      iter.ReportError();
      return false;
    }
    return true;
  }

  /** `skipThreeBytes` */
  method SkipThreeBytes(iter: Iterator, b1: byte, b2: byte, b3: byte)
    requires iter.Valid() && b1 != 0 && b2 != 0 && b3 != 0
    modifies iter, iter.buf
    ensures iter.Kept()
    ensures if At(iter.input, old(iter.Pos()), [b1, b2, b3])
      then iter.err == old(iter.err) && iter.Pos() == old(iter.Pos()) + 3
      else iter.err == Other
  {
    hide iter.BufferValid, iter.ReaderValid, iter.CapturedTo, At;
    AtThree(iter.input, iter.Pos(), b1, b2, b3);
    var ok := ExpectByte(iter, b1);
    if !ok {
      return;
    }
    ok := ExpectByte(iter, b2);
    if !ok {
      return;
    }
    ok := ExpectByte(iter, b3);
  }

  /** `skipFourBytes` */
  method SkipFourBytes(iter: Iterator, b1: byte, b2: byte, b3: byte, b4: byte)
    requires iter.Valid() && b1 != 0 && b2 != 0 && b3 != 0 && b4 != 0
    modifies iter, iter.buf
    ensures iter.Kept()
    ensures if At(iter.input, old(iter.Pos()), [b1, b2, b3, b4])
      then iter.err == old(iter.err) && iter.Pos() == old(iter.Pos()) + 4
      else iter.err == Other
  {
    hide iter.BufferValid, iter.ReaderValid, iter.CapturedTo, At;
    ghost var p := iter.Pos();
    assert At(iter.input, p, [b1, b2, b3, b4]) <==>
        p < |iter.input| && iter.input[p] == b1 && At(iter.input, p + 1, [b2, b3, b4]) by {
      AtConcat(iter.input, p, [b1], [b2, b3, b4]);
      AtByte(iter.input, p, b1);
      assert [b1] + [b2, b3, b4] == [b1, b2, b3, b4];
    }
    var ok := ExpectByte(iter, b1);
    if !ok {
      return;
    }
    SkipThreeBytes(iter, b2, b3, b4);
  }
}

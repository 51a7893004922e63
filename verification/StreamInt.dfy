/** stream_int.go: the base-1000 integer printer over the packed digits table. */
module StreamInt {
  import opened Bytes
  import opened Decimals
  import opened StreamCore

  type uint8 = x: int | 0 <= x < 0x100
  type uint16 = x: int | 0 <= x < 0x1_0000
  type uint32 = x: int | 0 <= x < 0x1_0000_0000
  type uint64 = x: int | 0 <= x < 0x1_0000_0000_0000_0000
  type int8 = x: int | -0x80 <= x < 0x80
  type int16 = x: int | -0x8000 <= x < 0x8000
  type int32 = x: int | -0x8000_0000 <= x < 0x8000_0000
  type int64 = x: int | -0x8000_0000_0000_0000 <= x < 0x8000_0000_0000_0000

  /** Three digits in the low bytes, the number of leading zeros in the high byte. */
  function Packed(i: nat): uint32
    requires i < 1000
  {
    (i / 100 + 0x30) * 0x10000 + (i / 10 % 10 + 0x30) * 0x100 + i % 10 + 0x30
    + (if i < 10 then 0x2000000 else if i < 100 then 0x1000000 else 0)
  }

  /** `digits` */
  const DIGITS: seq<uint32> := seq(1000, i requires 0 <= i < 1000 => Packed(i))

  /** `init` */
  method InitDigits() returns (digits: array<uint32>)
    ensures fresh(digits) && digits[..] == DIGITS
  {
    digits := new uint32[1000];
    var i := 0;
    while i < 1000
      invariant 0 <= i <= 1000
      invariant forall k :: 0 <= k < i ==> digits[k] == Packed(k)
    {
      digits[i] := (i / 100 + 0x30) * 0x10000 + (i / 10 % 10 + 0x30) * 0x100 + i % 10 + 0x30;
      if i < 10 {
        digits[i] := digits[i] + 0x2000000;
      } else if i < 100 {
        digits[i] := digits[i] + 0x1000000;
      }
      i := i + 1;
    }
  }

  /** `byte(v >> shift)` for the shifts 16, 8 and 0 of a table entry. */
  lemma PackedBytes(i: nat)
    requires i < 1000
    ensures var v := Packed(i);
      && v / 0x10000 % 0x100 == ZERO + i / 100
      && v / 0x100 % 0x100 == ZERO + i / 10 % 10
      && v % 0x100 == ZERO + i % 10
      && v / 0x1000000 == if i < 10 then 2 else if i < 100 then 1 else 0
  {
    var top := if i < 10 then 2 else if i < 100 then 1 else 0;
    FourBytesUnpack(top, i / 100 + 0x30, i / 10 % 10 + 0x30, i % 10 + 0x30);
  }

  lemma FourBytesUnpack(top: nat, a: nat, b: nat, c: nat)
    requires a < 0x100 && b < 0x100 && c < 0x100
    ensures var v := top * 0x1000000 + a * 0x10000 + b * 0x100 + c;
      v / 0x10000 % 0x100 == a && v / 0x100 % 0x100 == b && v % 0x100 == c && v / 0x1000000 == top
  {
    var v := top * 0x1000000 + a * 0x10000 + b * 0x100 + c;
    assert v / 0x100 == top * 0x10000 + a * 0x100 + b;
    assert v / 0x10000 == top * 0x100 + a;
  }

  /** `writeFirstBuf`: the canonical decimal of the number the table entry stands for. */
  method WriteFirstBuf(space: seq<byte>, v: uint32, ghost i: nat) returns (out: seq<byte>)
    requires i < 1000 && v == DIGITS[i]
    ensures out == space + Decimal(i)
  {
    hide Packed;
    PackedBytes(i);
    DecimalUnder1000(i);
    var start := v / 0x1000000;
    out := space;
    if start == 0 {
      out := out + [v / 0x10000 % 0x100, v / 0x100 % 0x100];
    } else if start == 1 {
      out := out + [v / 0x100 % 0x100];
    }
    out := out + [v % 0x100];
  }

  lemma DecimalUnder1000(i: nat)
    requires i < 1000
    ensures i < 10 ==> Decimal(i) == [ZERO + i % 10]
    ensures 10 <= i < 100 ==> Decimal(i) == [ZERO + i / 10 % 10] + [ZERO + i % 10]
    ensures 100 <= i ==> Decimal(i) == [ZERO + i / 100, ZERO + i / 10 % 10] + [ZERO + i % 10]
  {
    if i >= 10 {
      DecimalLastDigit(i);
    }
    if i >= 100 {
      DecimalLastDigit(i / 10);
    }
  }

  /** `writeBuf`: all three digits. */
  method WriteBuf(buf: seq<byte>, v: uint32, ghost i: nat) returns (out: seq<byte>)
    requires i < 1000 && v == DIGITS[i]
    ensures out == buf + ThreeDigits(i)
  {
    hide Packed;
    PackedBytes(i);
    out := buf + [v / 0x10000 % 0x100, v / 0x100 % 0x100, v % 0x100];
  }

  /** `WriteUint8` */
  method WriteUint8(stream: Stream, val: uint8)
    modifies stream`buf
    ensures stream.buf == old(stream.buf) + Decimal(val)
  {
    stream.buf := WriteFirstBuf(stream.buf, DIGITS[val], val);
  }

  /** `WriteUint16` */
  method WriteUint16(stream: Stream, val: uint16)
    modifies stream`buf
    ensures stream.buf == old(stream.buf) + Decimal(val)
  {
    hide Decimal, ThreeDigits, Packed;
    var q1 := val / 1000;
    if q1 == 0 {
      stream.buf := WriteFirstBuf(stream.buf, DIGITS[val], val);
      return;
    }
    var r1 := val - q1 * 1000;
    DecimalBlock(q1, r1);
    stream.buf := WriteFirstBuf(stream.buf, DIGITS[q1], q1);
    stream.buf := WriteBuf(stream.buf, DIGITS[r1], r1);
  }

  /** `WriteUint32` */
  method WriteUint32(stream: Stream, val: uint32)
    modifies stream`buf
    ensures stream.buf == old(stream.buf) + Decimal(val)
  {
    hide Decimal, ThreeDigits, Packed;
    var q1 := val / 1000;
    if q1 == 0 {
      stream.buf := WriteFirstBuf(stream.buf, DIGITS[val], val);
      return;
    }
    var r1 := val - q1 * 1000;
    DecimalBlock(q1, r1);
    var q2 := q1 / 1000;
    if q2 == 0 {
      stream.buf := WriteFirstBuf(stream.buf, DIGITS[q1], q1);
      stream.buf := WriteBuf(stream.buf, DIGITS[r1], r1);
      return;
    }
    var r2 := q1 - q2 * 1000;
    DecimalBlock(q2, r2);
    var q3 := q2 / 1000;
    if q3 == 0 {
      stream.buf := WriteFirstBuf(stream.buf, DIGITS[q2], q2);
    } else {
      var r3 := q2 - q3 * 1000;
      DecimalBlock(q3, r3);
      DecimalOne(q3);
      stream.buf := stream.buf + [q3 + ZERO];
      stream.buf := WriteBuf(stream.buf, DIGITS[r3], r3);
    }
    stream.buf := WriteBuf(stream.buf, DIGITS[r2], r2);
    stream.buf := WriteBuf(stream.buf, DIGITS[r1], r1);
  }

  lemma DecimalOne(d: nat)
    requires d < 10
    ensures Decimal(d) == [d + ZERO]
  {
  }

  /** `WriteUint64` */
  method WriteUint64(stream: Stream, val: uint64)
    modifies stream`buf
    ensures stream.buf == old(stream.buf) + Decimal(val)
  {
    hide Decimal, ThreeDigits, Packed;
    var q1 := val / 1000;
    if q1 == 0 {
      stream.buf := WriteFirstBuf(stream.buf, DIGITS[val], val);
      return;
    }
    var r1 := val - q1 * 1000;
    DecimalBlock(q1, r1);
    var q2 := q1 / 1000;
    if q2 == 0 {
      stream.buf := WriteFirstBuf(stream.buf, DIGITS[q1], q1);
      stream.buf := WriteBuf(stream.buf, DIGITS[r1], r1);
      return;
    }
    var r2 := q1 - q2 * 1000;
    DecimalBlock(q2, r2);
    var q3 := q2 / 1000;
    if q3 == 0 {
      stream.buf := WriteFirstBuf(stream.buf, DIGITS[q2], q2);
      stream.buf := WriteBuf(stream.buf, DIGITS[r2], r2);
      stream.buf := WriteBuf(stream.buf, DIGITS[r1], r1);
      return;
    }
    var r3 := q2 - q3 * 1000;
    DecimalBlock(q3, r3);
    WriteBillions(stream, q3);
    stream.buf := WriteBuf(stream.buf, DIGITS[r3], r3);
    stream.buf := WriteBuf(stream.buf, DIGITS[r2], r2);
    stream.buf := WriteBuf(stream.buf, DIGITS[r1], r1);
  }

  /** The rest of `WriteUint64`, for what is left above the third block. */
  method WriteBillions(stream: Stream, q3: uint64)
    requires 0 < q3 < 1000 * 1000 * 1000 * 1000
    modifies stream`buf
    ensures stream.buf == old(stream.buf) + Decimal(q3)
  {
    hide Decimal, ThreeDigits, Packed;
    var q4 := q3 / 1000;
    if q4 == 0 {
      stream.buf := WriteFirstBuf(stream.buf, DIGITS[q3], q3);
      return;
    }
    var r4 := q3 - q4 * 1000;
    DecimalBlock(q4, r4);
    var q5 := q4 / 1000;
    if q5 == 0 {
      stream.buf := WriteFirstBuf(stream.buf, DIGITS[q4], q4);
      stream.buf := WriteBuf(stream.buf, DIGITS[r4], r4);
      return;
    }
    var r5 := q4 - q5 * 1000;
    DecimalBlock(q5, r5);
    var q6 := q5 / 1000;
    if q6 == 0 {
      stream.buf := WriteFirstBuf(stream.buf, DIGITS[q5], q5);
    } else {
      stream.buf := WriteFirstBuf(stream.buf, DIGITS[q6], q6);
      var r6 := q5 - q6 * 1000;
      DecimalBlock(q6, r6);
      stream.buf := WriteBuf(stream.buf, DIGITS[r6], r6);
    }
    stream.buf := WriteBuf(stream.buf, DIGITS[r5], r5);
    stream.buf := WriteBuf(stream.buf, DIGITS[r4], r4);
  }

  /** `-nval` before it wraps around; the signed writers use it as an unsigned number of the same width. */
  function Magnitude(n: int): int {
    -n
  }

  /** `WriteInt8` */
  method WriteInt8(stream: Stream, nval: int8)
    modifies stream`buf
    ensures stream.buf == old(stream.buf) + SignedDecimal(nval)
  {
    hide Packed, Decimal;
    var val: uint8;
    if nval < 0 {
      val := Magnitude(nval) % 0x100;
      stream.buf := stream.buf + [MINUS];
    } else {
      val := nval;
    }
    stream.buf := WriteFirstBuf(stream.buf, DIGITS[val], val);
  }

  /** `WriteInt16` */
  method WriteInt16(stream: Stream, nval: int16)
    modifies stream`buf
    ensures stream.buf == old(stream.buf) + SignedDecimal(nval)
  {
    hide Decimal;
    var val: uint16;
    if nval < 0 {
      val := Magnitude(nval) % 0x1_0000;
      stream.buf := stream.buf + [MINUS];
    } else {
      val := nval;
    }
    WriteUint16(stream, val);
  }

  /** `WriteInt32` */
  method WriteInt32(stream: Stream, nval: int32)
    modifies stream`buf
    ensures stream.buf == old(stream.buf) + SignedDecimal(nval)
  {
    hide Decimal;
    var val: uint32;
    if nval < 0 {
      val := Magnitude(nval) % 0x1_0000_0000;
      stream.buf := stream.buf + [MINUS];
    } else {
      val := nval;
    }
    WriteUint32(stream, val);
  }

  /** `WriteInt64` */
  method WriteInt64(stream: Stream, nval: int64)
    modifies stream`buf
    ensures stream.buf == old(stream.buf) + SignedDecimal(nval)
  {
    hide Decimal;
    var val: uint64;
    if nval < 0 {
      val := Magnitude(nval) % 0x1_0000_0000_0000_0000;
      stream.buf := stream.buf + [MINUS];
    } else {
      val := nval;
    }
    WriteUint64(stream, val);
  }
}

/** stream_float.go: the fixed-point printer from the scaled integer on, and the fast float reader on its output. */
module StreamFloat {
  import opened Bytes
  import opened Decimals
  import opened IntMachines
  import opened FloatMachines
  import opened StreamCore
  import opened StreamInt
  import opened StringMachines
  import opened Grammar

  /** `pow10` */
  function Pow10(p: nat): (n: nat)
    ensures n >= 1
  {
    if p == 0 then 1 else 10 * Pow10(p - 1)
  }

  // ---------- The text ----------

  /** `n` in exactly `w` digits. */
  function Padded(n: nat, w: nat): (t: seq<byte>)
    ensures |t| == w
    decreases w
  {
    if w == 0 then [] else Padded(n / 10, w - 1) + [ZERO + n % 10]
  }

  function StripZeros(t: seq<byte>): seq<byte> {
    if t != [] && t[|t| - 1] == ZERO then StripZeros(t[..|t| - 1]) else t
  }

  /** The digits behind the dot. */
  function FractionDigits(lval: nat): seq<byte> {
    StripZeros(Padded(lval % 1000000, 6))
  }

  /** What the lossy writers append for the scaled integer `lval`. */
  function FixedPoint(lval: nat): seq<byte> {
    Decimal(lval / 1000000) + if lval % 1000000 == 0 then [] else [DOT] + FractionDigits(lval)
  }

  // ---------- The printer ----------

  /** Padding with zeros in front of the canonical decimal. */
  lemma {:induction false} PaddedSmall(n: nat, w: nat)
    requires n < Pow10(w)
    ensures Padded(n, w + 1) == [ZERO] + Padded(n, w)
    decreases w
  {
    if w > 0 {
      PaddedSmall(n / 10, w - 1);
      assert Padded(n, w + 1) == [ZERO] + Padded(n / 10, w - 1) + [ZERO + n % 10];
    } else {
      assert Padded(0, 0) == [];
    }
  }

  lemma {:induction false} PaddedFull(n: nat, w: nat)
    requires w >= 1 && n < Pow10(w) && (w == 1 || Pow10(w - 1) <= n)
    ensures Padded(n, w) == Decimal(n)
    decreases w
  {
    if w > 1 {
      PaddedFull(n / 10, w - 1);
    } else {
      assert Pow10(0) == 1 && Pow10(1) == 10 * Pow10(0);
      assert Padded(n / 10, 0) == [];
    }
  }

  /** `WriteFloat32Lossy`, `WriteFloat64Lossy` on a value that is scaled to `lval` already. */
  method WriteFixedPoint(stream: Stream, lval: uint64)
    requires lval <= 0x4ffffff * 1000000
    modifies stream`buf
    ensures stream.buf == old(stream.buf) + FixedPoint(lval)
  {
    hide Decimal, Padded, StripZeros;
    var precision := 6;
    var exp := 1000000;
    WriteUint64(stream, lval / exp);
    var fval := lval % exp;
    if fval == 0 {
      return;
    }
    stream.WriteByte(DOT);
    ghost var base := stream.buf;
    WriteFraction(stream, fval, precision);
    ghost var digits := Padded(fval, 6);
    PaddedDenotes(0, fval, 6);
    Strip(stream, base, digits);
    assert base + FractionDigits(lval) ==
        old(stream.buf) + Decimal(lval / 1000000) + ([DOT] + FractionDigits(lval));
  }

  /** The padding loop, and the fraction behind it. */
  method WriteFraction(stream: Stream, fval: uint64, precision: nat)
    requires 0 < fval < Pow10(precision) && precision == 6
    modifies stream`buf
    ensures stream.buf == old(stream.buf) + Padded(fval, precision)
  {
    hide Decimal, Padded, Pow10;
    ghost var base := stream.buf;
    var p := precision - 1;
    while p > 0 && fval < Pow10(p)
      invariant 0 <= p < precision && fval < Pow10(p + 1)
      invariant stream.buf + Padded(fval, p + 1) == base + Padded(fval, precision)
    {
      PaddedSmall(fval, p);
      assert stream.buf + ([ZERO] + Padded(fval, p)) == stream.buf + [ZERO] + Padded(fval, p);
      stream.WriteByte(ZERO);
      p := p - 1;
    }
    PowZero();
    PaddedFull(fval, p + 1);
    WriteUint64(stream, fval);
  }

  lemma PowZero()
    ensures Pow10(0) == 1
  {
  }

  /** The stripping loop; `digits` stand at the end of the buffer. */
  method Strip(stream: Stream, ghost base: seq<byte>, ghost digits: seq<byte>)
    requires stream.buf == base + digits && AreDigits(digits) && Extend(0, digits) > 0
    modifies stream`buf
    ensures stream.buf == base + StripZeros(digits)
  {
    hide Extend;
    ghost var t := digits;
    NotNothing(t);
    while stream.buf[|stream.buf| - 1] == ZERO
      invariant stream.buf == base + t && AreDigits(t) && Extend(0, t) > 0 && t != []
      invariant StripZeros(t) == StripZeros(digits)
      decreases |t|
    {
      DropZero(t);
      t := t[..|t| - 1];
      NotNothing(t);
      stream.buf := stream.buf[..|stream.buf| - 1];
    }
  }

  lemma NotNothing(t: seq<byte>)
    requires AreDigits(t) && Extend(0, t) > 0
    ensures t != []
  {
  }

  lemma DropZero(t: seq<byte>)
    requires AreDigits(t) && t != [] && t[|t| - 1] == ZERO
    ensures Extend(0, t) == 10 * Extend(0, t[..|t| - 1])
  {
    var a := t[..|t| - 1];
    assert t == a + [ZERO];
    ExtendConcat(0, a, [ZERO]);
    ExtendOne(Extend(0, a), ZERO);
  }

  lemma ExtendOne(v: nat, c: byte)
    requires IsDigit(c)
    ensures Extend(v, [c]) == v * 10 + (c - ZERO)
  {
    assert [c][1..] == [];
  }

  // ---------- What the text denotes ----------

  lemma {:induction false} PaddedDenotes(v: nat, n: nat, w: nat)
    requires n < Pow10(w)
    ensures AreDigits(Padded(n, w)) && Extend(v, Padded(n, w)) == v * Pow10(w) + n
    decreases w
  {
    hide Extend;
    if w > 0 {
      PaddedDenotes(v, n / 10, w - 1);
      var a := Padded(n / 10, w - 1);
      ExtendConcat(v, a, [ZERO + n % 10]);
      ExtendOne(Extend(v, a), ZERO + n % 10);
      TenTimes(v, w - 1);
    } else {
      NothingExtends(v);
    }
  }

  lemma NothingExtends(v: nat)
    ensures Extend(v, []) == v && v * Pow10(0) == v
  {
  }

  /** Stripping divides by ten for each zero, and leaves no zero at the end. */
  lemma {:induction false} StripDenotes(v: nat, t: seq<byte>)
    requires AreDigits(t)
    ensures var u := StripZeros(t);
      && u <= t && AreDigits(u) && (u != [] ==> u[|u| - 1] != ZERO)
      && Extend(v, t) == Extend(v, u) * Pow10(|t| - |u|)
    decreases |t|
  {
    hide Extend;
    if t != [] && t[|t| - 1] == ZERO {
      var a := t[..|t| - 1];
      assert t == a + [ZERO];
      ExtendConcat(v, a, [ZERO]);
      ExtendOne(Extend(v, a), ZERO);
      StripDenotes(v, a);
      TenTimes(Extend(v, StripZeros(t)), |a| - |StripZeros(t)|);
    }
  }

  lemma TenTimes(n: nat, p: nat)
    ensures n * Pow10(p + 1) == 10 * (n * Pow10(p))
  {
    assert Pow10(p + 1) == 10 * Pow10(p);
  }

  /**
   * The printed text is a whole part without leading zeros and, unless it is a whole number, a dot and at most
   * six digits of which the last is no zero; together its digits denote exactly `lval` / 10^6.
   */
  lemma FixedPointDenotes(lval: nat)
    ensures var whole := Decimal(lval / 1000000);
      var fraction := if lval % 1000000 == 0 then [] else FractionDigits(lval);
      && FixedPoint(lval) == whole + (if fraction == [] then [] else [DOT] + fraction)
      && AreDigits(whole) && AreDigits(fraction) && |fraction| <= 6
      && (whole[0] == ZERO ==> whole == [ZERO])
      && (fraction == [] <==> lval % 1000000 == 0)
      && (fraction != [] ==> fraction[|fraction| - 1] != ZERO)
      && Extend(Extend(0, whole), fraction) * Pow10(6 - |fraction|) == lval
  {
    hide Decimal, Padded, StripZeros, Extend;
    var q, r := lval / 1000000, lval % 1000000;
    DecimalDenotes(q);
    DecimalZero();
    SixDigits();
    if r == 0 {
      ExtendNothing(q);
    } else {
      PaddedDenotes(q, r, 6);
      PaddedDenotes(0, r, 6);
      StripDenotes(q, Padded(r, 6));
      StripDenotes(0, Padded(r, 6));
      ExtendNothing(0);
    }
  }

  lemma SixDigits()
    ensures Pow10(6) == 1000000
  {
    assert Pow10(2) == 10 * Pow10(1) == 100;
    assert Pow10(4) == 10 * Pow10(3) == 10000;
  }

  lemma ExtendNothing(v: nat)
    ensures Extend(v, []) == v
  {
  }

  // ---------- The fast path of the reader ----------

  lemma {:induction false} WholeDigits(s: seq<byte>, i: nat, limit: nat, v: nat, t: seq<byte>)
    requires i + |t| <= limit <= |s| && At(s, i, t) && AreDigits(t) && Extend(v, t) <= MAX_FLOAT64
    ensures FastWhole(s, i, limit, v, F64) == FastWhole(s, i + |t|, limit, Extend(v, t), F64)
    decreases |t|
  {
    if t != [] {
      AtIndex(s, i, t, 0);
      assert t == [t[0]] + t[1..];
      AtConcat(s, i, [t[0]], t[1..]);
      ExtendGrows(v * 10 + (t[0] - ZERO), t[1..]);
      WholeDigits(s, i + 1, limit, v * 10 + (t[0] - ZERO), t[1..]);
    }
  }

  lemma {:induction false} PlaceDigits(s: seq<byte>, i: nat, limit: nat, v: nat, places: nat, t: seq<byte>)
    requires i + |t| <= limit <= |s| && At(s, i, t) && AreDigits(t) && Extend(v, t) <= MAX_FLOAT64
    ensures FastFraction(s, i, limit, v, places, F64) ==
            FastFraction(s, i + |t|, limit, Extend(v, t), places + |t|, F64)
    decreases |t|
  {
    if t != [] {
      AtIndex(s, i, t, 0);
      assert t == [t[0]] + t[1..];
      AtConcat(s, i, [t[0]], t[1..]);
      ExtendGrows(v * 10 + (t[0] - ZERO), t[1..]);
      PlaceDigits(s, i + 1, limit, v * 10 + (t[0] - ZERO), places + 1, t[1..]);
    }
  }

  /**
   * Whatever the lossy writers print, in front of a delimiter that the buffer holds, the float64 reader stays on
   * its fast path: it forms the same rational, `lval` / 10^6, from a mantissa below 2^53.
   */
  lemma FixedPointReadsFast(lval: nat, s: seq<byte>, i: nat, limit: nat)
    requires lval <= 0x4ffffff * 1000000 && At(s, i, FixedPoint(lval))
    requires i + |FixedPoint(lval)| < limit <= |s| && FloatDigitOf(s[i + |FixedPoint(lval)|]).EndOfNumber?
    ensures var f := FastFrom(s, i, limit, F64);
      && f.Fast? && f.next == i + |FixedPoint(lval)| && f.decimals <= 6
      && f.mantissa < 0x20_0000_0000_0000
      && f.mantissa * Pow10(6 - f.decimals) == lval
  {
    hide At, Decimal, FractionDigits, FixedPoint, Extend, Pow10, FastWhole, FastFraction;
    FixedPointDenotes(lval);
    var whole := Decimal(lval / 1000000);
    var fraction := if lval % 1000000 == 0 then [] else FractionDigits(lval);
    var rest := if fraction == [] then [] else [DOT] + fraction;
    AtConcat(s, i, whole, rest);
    var e := i + |whole|;
    Mantissa(Extend(Extend(0, whole), fraction), 6 - |fraction|, lval);
    ExtendGrows(Extend(0, whole), fraction);
    assert whole + rest == FixedPoint(lval);
    if fraction != [] {
      AtConcat(s, e, [DOT], fraction);
      AtIndex(s, e, [DOT], 0);
    }
    FirstDigit(s, i, limit, whole, e);
    if fraction == [] {
      ExtendNothing(Extend(0, whole));
      FastWholeEndsHere(s, e, limit, Extend(0, whole));
    } else {
      FastWholeAtDot(s, e, limit, Extend(0, whole));
      PlaceDigits(s, e + 1, limit, Extend(0, whole), 0, fraction);
      FastFractionEndsHere(s, e + 1 + |fraction|, limit, Extend(Extend(0, whole), fraction), |fraction|);
    }
  }

  /** A mantissa is no larger than the scaled integer it stands for. */
  lemma Mantissa(m: nat, p: nat, lval: nat)
    requires m * Pow10(p) == lval
    ensures m <= lval
  {
    hide Pow10;
  }

  lemma FastWholeEndsHere(s: seq<byte>, e: nat, limit: nat, v: nat)
    requires e < limit <= |s| && FloatDigitOf(s[e]).EndOfNumber?
    ensures FastWhole(s, e, limit, v, F64) == Fast(v, 0, e)
  {
  }

  lemma FastWholeAtDot(s: seq<byte>, e: nat, limit: nat, v: nat)
    requires e < limit <= |s| && s[e] == DOT
    ensures FastWhole(s, e, limit, v, F64) == FastFraction(s, e + 1, limit, v, 0, F64)
  {
  }

  lemma FastFractionEndsHere(s: seq<byte>, e: nat, limit: nat, v: nat, places: nat)
    requires e < limit <= |s| && FloatDigitOf(s[e]).EndOfNumber? && 0 < places < POW10_COUNT
    ensures FastFraction(s, e, limit, v, places, F64) == Fast(v, places, e)
  {
  }

  /** The whole part: the first digit is checked for a leading zero, the others only collected. */
  lemma FirstDigit(s: seq<byte>, i: nat, limit: nat, whole: seq<byte>, e: nat)
    requires whole != [] && AreDigits(whole) && At(s, i, whole) && e == i + |whole| < limit <= |s|
    requires whole[0] == ZERO ==> whole == [ZERO]
    requires !IsDigit(s[e]) && Extend(0, whole) <= MAX_FLOAT64
    ensures FastFrom(s, i, limit, F64) == FastWhole(s, e, limit, Extend(0, whole), F64)
  {
    hide At, FastWhole;
    AtIndex(s, i, whole, 0);
    assert whole == [whole[0]] + whole[1..];
    AtConcat(s, i, [whole[0]], whole[1..]);
    WholeDigits(s, i + 1, limit, whole[0] - ZERO, whole[1..]);
  }

  // ---------- Both integer and fixed-point writers print JSON numbers ----------

  lemma FixedPointIsNumber(lval: nat)
    ensures IsNumberText(FixedPoint(lval))
  {
    hide Decimal, FractionDigits, FixedPoint, Extend, Pow10;
    FixedPointDenotes(lval);
    var whole := Decimal(lval / 1000000);
    var fraction := if lval % 1000000 == 0 then [] else FractionDigits(lval);
    var t := FixedPoint(lval);
    assert t[..|whole|] == whole;
    WholePart(t, 0, |whole|);
    if fraction != [] {
      assert t[|whole|] == DOT && t[|whole| + 1..|t|] == fraction;
      DigitsEndIs(t, |whole| + 1, |t|);
    }
  }

  lemma WholePart(t: seq<byte>, i: nat, e: nat)
    requires i < e <= |t| && AreDigits(t[i..e]) && (t[i] == ZERO ==> e == i + 1)
    requires e < |t| ==> !IsDigit(t[e])
    ensures IsDigit(t[i]) && WholeEnd(t, i) == e
  {
    assert t[i] == t[i..e][0];
    DigitsEndIs(t, i, e);
  }

  lemma DecimalIsNumber(n: int)
    ensures IsNumberText(SignedDecimal(n))
  {
    hide Decimal;
    var m := if n < 0 then -n else n;
    var i := if n < 0 then 1 else 0;
    var t := SignedDecimal(n);
    DecimalDenotes(m);
    DecimalZero();
    assert t[i..|t|] == Decimal(m) && t[i] == Decimal(m)[0];
    WholePart(t, i, |t|);
  }
}

/** UTF-8 as section 4 of RFC 3629 defines it, and Go's `utf8.DecodeRuneInString`. */
module Utf8 {
  import opened Bytes
  import opened StringMachines

  predicate IsTail(c: byte) {
    0x80 <= c <= 0xBF
  }

  predicate Starts3(c: byte, d: byte) {
    || (c == 0xE0 && 0xA0 <= d <= 0xBF)
    || (0xE1 <= c <= 0xEC && IsTail(d))
    || (c == 0xED && 0x80 <= d <= 0x9F)
    || (0xEE <= c <= 0xEF && IsTail(d))
  }

  predicate Starts4(c: byte, d: byte) {
    || (c == 0xF0 && 0x90 <= d <= 0xBF)
    || (0xF1 <= c <= 0xF3 && IsTail(d))
    || (c == 0xF4 && 0x80 <= d <= 0x8F)
  }

  /** The length of the UTF-8 character at the front of `t`, or 0 if there is none. */
  function CharLength(t: seq<byte>): (n: nat)
    ensures n <= 4 && n <= |t|
  {
    if |t| >= 1 && t[0] < 0x80 then 1
    else if |t| >= 2 && 0xC2 <= t[0] <= 0xDF && IsTail(t[1]) then 2
    else if |t| >= 3 && Starts3(t[0], t[1]) && IsTail(t[2]) then 3
    else if |t| >= 4 && Starts4(t[0], t[1]) && IsTail(t[2]) && IsTail(t[3]) then 4
    else 0
  }

  /** `utf8.DecodeRuneInString`: the rune at the front, or U+FFFD with size 1 where there is none. */
  function DecodeRune(t: seq<byte>): (r: (int, nat))
    requires t != []
    ensures 1 <= r.1 <= |t|
  {
    var n := CharLength(t);
    if n == 1 then (t[0], 1)
    else if n == 2 then (Rune2(t[0], t[1]), 2)
    else if n == 3 then (Rune3(t[0], t[1], t[2]), 3)
    else if n == 4 then (Rune4(t[0], t[1], t[2], t[3]), 4)
    else (REPLACEMENT, 1)
  }

  function Rune2(a: int, b: int): int {
    (a - 0xC0) * 64 + (b - 0x80)
  }

  function Rune3(a: int, b: int, c: int): int {
    (a - 0xE0) * 4096 + (b - 0x80) * 64 + (c - 0x80)
  }

  function Rune4(a: int, b: int, c: int, d: int): int {
    (a - 0xF0) * 262144 + (b - 0x80) * 4096 + (c - 0x80) * 64 + (d - 0x80)
  }

  predicate ValidUtf8(t: seq<byte>) {
    t == [] || (CharLength(t) > 0 && ValidUtf8(t[CharLength(t)..]))
  }

  /** Every scalar value's encoding is one character, and decodes to it. */
  lemma EncodeDecode(r: int, rest: seq<byte>)
    requires IsScalar(r)
    ensures CharLength(EncodeScalar(r) + rest) == |EncodeScalar(r)|
    ensures DecodeRune(EncodeScalar(r) + rest) == (r, |EncodeScalar(r)|)
  {
    hide EncodeThree, EncodeFour;
    if 0x800 <= r < 0x10000 {
      EncodeDecode3(r, rest);
    } else if 0x10000 <= r {
      EncodeDecode4(r, rest);
    }
  }

  lemma EncodeDecode3(r: int, rest: seq<byte>)
    requires 0x800 <= r < 0x10000 && IsScalar(r)
    ensures |EncodeThree(r)| == 3 && DecodeRune(EncodeThree(r) + rest) == (r, 3)
    ensures CharLength(EncodeThree(r) + rest) == 3
  {
    var t := EncodeThree(r) + rest;
    assert r == (r / 4096) * 4096 + (r / 64 % 64) * 64 + r % 64;
    assert t[0] == 0xE0 + r / 4096 && t[1] == 0x80 + r / 64 % 64 && t[2] == 0x80 + r % 64;
  }

  lemma EncodeDecode4(r: int, rest: seq<byte>)
    requires 0x10000 <= r <= 0x10FFFF
    ensures |EncodeFour(r)| == 4 && DecodeRune(EncodeFour(r) + rest) == (r, 4)
    ensures CharLength(EncodeFour(r) + rest) == 4
  {
    hide CharLength, DecodeRune;
    FourDigits(r);
    FourBytes(r / 262144, r / 4096 % 64, r / 64 % 64, r % 64, rest);
  }

  /** A scalar value beyond 16 bits, to base 64. */
  lemma FourDigits(r: int)
    requires 0x10000 <= r <= 0x10FFFF
    ensures var a, b, c, d := r / 262144, r / 4096 % 64, r / 64 % 64, r % 64;
      && r == a * 262144 + b * 4096 + c * 64 + d
      && 0 <= a <= 4 && (a == 0 ==> b >= 16) && (a == 4 ==> b < 16)
  {
    var q := r / 64;
    var p := q / 64;
    assert r == q * 64 + r % 64 && q == p * 64 + q % 64 && p == p / 64 * 64 + p % 64;
    assert p == r / 4096 && p / 64 == r / 262144;
  }

  lemma FourBytes(a: int, b: int, c: int, d: int, rest: seq<byte>)
    requires 0 <= a <= 4 && 0 <= b < 64 && 0 <= c < 64 && 0 <= d < 64
    requires (a == 0 ==> b >= 16) && (a == 4 ==> b < 16)
    ensures var t := [0xF0 + a, 0x80 + b, 0x80 + c, 0x80 + d] + rest;
      CharLength(t) == 4 && DecodeRune(t) == (a * 262144 + b * 4096 + c * 64 + d, 4)
  {
    var t := [0xF0 + a, 0x80 + b, 0x80 + c, 0x80 + d] + rest;
    assert t[0] == 0xF0 + a && t[1] == 0x80 + b && t[2] == 0x80 + c && t[3] == 0x80 + d;
  }

  /** Every character decodes to a scalar value whose encoding it is. */
  lemma DecodeEncode(t: seq<byte>)
    requires CharLength(t) > 0
    ensures IsScalar(DecodeRune(t).0)
    ensures EncodeScalar(DecodeRune(t).0) == t[..CharLength(t)]
  {
    if CharLength(t) == 2 {
      Encode2(t[0], t[1]);
    } else if CharLength(t) == 3 {
      Encode3(t[0], t[1], t[2]);
    } else if CharLength(t) == 4 {
      Encode4(t[0], t[1], t[2], t[3]);
    }
  }

  lemma Encode2(a: byte, b: byte)
    requires 0xC2 <= a <= 0xDF && IsTail(b)
    ensures IsScalar(Rune2(a, b)) && EncodeScalar(Rune2(a, b)) == [a, b]
  {
  }

  lemma Encode3(a: byte, b: byte, c: byte)
    requires Starts3(a, b) && IsTail(c)
    ensures IsScalar(Rune3(a, b, c)) && EncodeScalar(Rune3(a, b, c)) == [a, b, c]
  {
    hide EncodeThree;
    var x, y := a - 0xE0, b - 0x80;
    assert 0x800 <= x * 4096 + y * 64 < 0x10000 - 63;
    assert x * 4096 + y * 64 < 0xD800 - 63 || 0xE000 <= x * 4096 + y * 64;
    ThreeBytes(a, b, c);
  }

  lemma ThreeBytes(a: byte, b: byte, c: byte)
    requires 0xE0 <= a <= 0xEF && IsTail(b) && IsTail(c) && 0x800 <= Rune3(a, b, c)
    ensures Rune3(a, b, c) < 0x10000 && EncodeThree(Rune3(a, b, c)) == [a, b, c]
  {
    var x, y := a - 0xE0, b - 0x80;
    var r := Rune3(a, b, c);
    assert r / 64 == x * 64 + y && r / 4096 == x;
  }

  lemma Encode4(a: byte, b: byte, c: byte, d: byte)
    requires Starts4(a, b) && IsTail(c) && IsTail(d)
    ensures IsScalar(Rune4(a, b, c, d)) && EncodeScalar(Rune4(a, b, c, d)) == [a, b, c, d]
  {
    hide EncodeFour;
    var x, y := a - 0xF0, b - 0x80;
    assert 0x10000 <= x * 262144 + y * 4096 <= 0x10F000;
    FourEncode(a, b, c, d);
  }

  lemma FourEncode(a: byte, b: byte, c: byte, d: byte)
    requires 0xF0 <= a <= 0xF4 && IsTail(b) && IsTail(c) && IsTail(d) && 0x10000 <= Rune4(a, b, c, d) < 0x110000
    ensures EncodeFour(Rune4(a, b, c, d)) == [a, b, c, d]
  {
    var x, y, z := a - 0xF0, b - 0x80, c - 0x80;
    var r := Rune4(a, b, c, d);
    assert r == (x * 4096 + y * 64 + z) * 64 + (d - 0x80);
    assert r / 64 == x * 4096 + y * 64 + z && r % 64 == d - 0x80;
    assert r / 4096 == x * 64 + y && r / 64 % 64 == z;
    assert r / 262144 == x && r / 4096 % 64 == y;
  }

  /** A character at the front of a longer text is the same character. */
  lemma CharLengthConcat(a: seq<byte>, b: seq<byte>)
    requires CharLength(a) > 0
    ensures CharLength(a + b) == CharLength(a)
  {
  }

  lemma {:induction false} ValidConcat(a: seq<byte>, b: seq<byte>)
    requires ValidUtf8(a) && ValidUtf8(b)
    ensures ValidUtf8(a + b)
    decreases |a|
  {
    hide CharLength;
    if a == [] {
      assert a + b == b;
    } else {
      var n := CharLength(a);
      ValidConcat(a[n..], b);
      CharLengthConcat(a, b);
      assert (a + b)[n..] == a[n..] + b;
    }
  }

  lemma ValidRune(r: int)
    ensures ValidUtf8(RuneBytes(r))
  {
    var u := RuneBytes(r);
    EncodeDecode(if IsScalar(r) then r else REPLACEMENT, []);
    assert u + [] == u;
    assert u[CharLength(u)..] == [];
  }

  lemma ValidAscii(c: byte)
    requires c < 0x80
    ensures ValidUtf8([c])
  {
    assert [c][1..] == [];
  }
}

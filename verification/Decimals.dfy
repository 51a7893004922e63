/** Decimal texts: the canonical one of a number, and the number a text denotes. */
module Decimals {
  import opened Bytes

  /** The canonical decimal of `n`: no leading zero except for 0 itself. */
  function Decimal(n: nat): (t: seq<byte>)
    ensures t != []
  {
    if n < 10 then [ZERO + n] else Decimal(n / 10) + [ZERO + n % 10]
  }

  function SignedDecimal(n: int): seq<byte> {
    if n < 0 then [MINUS] + Decimal(-n) else Decimal(n)
  }

  /** `n` in exactly three digits. */
  function ThreeDigits(n: nat): seq<byte>
    requires n < 1000
  {
    [ZERO + n / 100, ZERO + n / 10 % 10, ZERO + n % 10]
  }

  predicate AreDigits(t: seq<byte>) {
    forall k :: 0 <= k < |t| ==> IsDigit(t[k])
  }

  /** What a number `v` becomes when the digits of `t` are written behind it. */
  function Extend(v: nat, t: seq<byte>): nat
    requires AreDigits(t)
    decreases |t|
  {
    if t == [] then v else Extend(v * 10 + (t[0] - ZERO), t[1..])
  }

  lemma {:induction false} ExtendConcat(v: nat, a: seq<byte>, b: seq<byte>)
    requires AreDigits(a) && AreDigits(b)
    ensures AreDigits(a + b) && Extend(v, a + b) == Extend(Extend(v, a), b)
    decreases |a|
  {
    if a == [] {
      assert a + b == b;
    } else {
      assert (a + b)[1..] == a[1..] + b;
      ExtendConcat(v * 10 + (a[0] - ZERO), a[1..], b);
    }
  }

  lemma {:induction false} ExtendGrows(v: nat, t: seq<byte>)
    requires AreDigits(t)
    ensures v <= Extend(v, t)
    decreases |t|
  {
    if t != [] {
      ExtendGrows(v * 10 + (t[0] - ZERO), t[1..]);
    }
  }

  /** The canonical decimal denotes its number, in digits only, without a leading zero. */
  lemma {:induction false} DecimalDenotes(n: nat)
    ensures AreDigits(Decimal(n)) && Extend(0, Decimal(n)) == n
    ensures Decimal(n)[0] == ZERO <==> n == 0
  {
    if n >= 10 {
      DecimalDenotes(n / 10);
      ExtendConcat(0, Decimal(n / 10), [ZERO + n % 10]);
      assert Extend(n / 10, [ZERO + n % 10]) == Extend(n / 10 * 10 + n % 10, []);
    } else {
      assert Extend(0, [ZERO + n]) == Extend(n, []);
    }
  }

  lemma DecimalZero()
    ensures Decimal(0) == [ZERO]
  {
  }

  lemma DecimalLastDigit(n: nat)
    requires n >= 10
    ensures Decimal(n) == Decimal(n / 10) + [ZERO + n % 10]
  {
  }

  /** Printing three digits at a time. */
  lemma DecimalBlock(q: nat, r: nat)
    requires 0 < q && r < 1000
    ensures Decimal(q * 1000 + r) == Decimal(q) + ThreeDigits(r)
  {
    hide Decimal;
    var n := q * 1000 + r;
    DecimalLastDigit(n);
    DecimalLastDigit(n / 10);
    DecimalLastDigit(n / 100);
    assert n / 10 == q * 100 + r / 10 && n / 100 == q * 10 + r / 100 && n / 1000 == q;
    assert n % 10 == r % 10 && n / 10 % 10 == r / 10 % 10 && n / 100 % 10 == r / 100;
    assert n / 10 / 10 == n / 100 && n / 100 / 10 == n / 1000;
    assert Decimal(q) + [ZERO + r / 100] + [ZERO + r / 10 % 10] + [ZERO + r % 10] == Decimal(q) + ThreeDigits(r);
  }
}

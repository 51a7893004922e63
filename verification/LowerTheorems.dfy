/** Which names are hashed alike when they are not case-sensitive, if names are lowered rune by rune. */
module LowerTheorems {
  import opened Bytes
  import opened StringMachines
  import opened Utf8
  import opened Escapes
  import opened FieldHash

  /** A string with each of its runes mapped; what is no UTF-8 becomes U+FFFD first. */
  function MapRunes(t: seq<byte>, lower: int -> int): seq<byte>
    decreases |t|
  {
    if t == [] then []
    else RuneBytes(lower(DecodeRune(t).0)) + MapRunes(t[DecodeRune(t).1..], lower)
  }

  /**
   * `strings.ToLower` maps the runes of a string one by one. Nothing is assumed of the mapping but that it lowers
   * the ASCII letters and keeps the rest of ASCII, and that it takes no rune from U+0080 to U+00FF to ASCII.
   */
  ghost predicate IsRunewise(toLower: seq<byte> -> seq<byte>, lower: int -> int) {
    && (forall r :: IsScalar(r) ==> IsScalar(lower(r)))
    && (forall r :: 0 <= r < 0x80 ==> IsLowerOf(lower(r), r))
    && (forall r :: 0x80 <= r < 0x100 ==> lower(r) >= 0x80)
    && (forall t :: toLower(t) == MapRunes(t, lower))
  }

  lemma LowersAscii(toLower: seq<byte> -> seq<byte>, lower: int -> int, r: int)
    requires IsRunewise(toLower, lower)
    ensures 0 <= r < 0x80 ==> lower(r) == LowerChar(r, false)
  {
    hide LowerChar, IsLowerOf;
    LowerOfIs(lower(r), r);
  }

  lemma RunewiseScalar(toLower: seq<byte> -> seq<byte>, lower: int -> int, r: int)
    requires IsRunewise(toLower, lower) && IsScalar(r)
    ensures IsScalar(lower(r))
  {
  }

  predicate AreBytes(chars: seq<int>) {
    forall k :: 0 <= k < |chars| ==> 0 <= chars[k] < 0x100
  }

  lemma RuneBytesLength(r: int)
    requires IsScalar(r)
    ensures r < 0x80 ==> RuneBytes(r) == [r]
    ensures r >= 0x80 ==> |RuneBytes(r)| >= 2
  {
  }

  lemma RuneIs(t: seq<byte>)
    requires t != []
    ensures var (r, n) := DecodeRune(t);
      && 1 <= n <= |t| && IsScalar(r)
      && (r < 0x80 ==> n == 1 && r == t[0]) && (t[0] < 0x80 ==> r == t[0])
  {
    if CharLength(t) > 0 {
      DecodeEncode(t);
    }
  }

  /**
   * If no rune of a string is greater than a byte, its lower-case form is longer than the string has runes, unless
   * the string is ASCII.
   */
  lemma {:induction false} LowerIsLonger(t: seq<byte>, toLower: seq<byte> -> seq<byte>, lower: int -> int)
    requires IsRunewise(toLower, lower) && AreBytes(Runes(t, false))
    ensures |MapRunes(t, lower)| >= |Runes(t, false)|
    ensures |MapRunes(t, lower)| == |Runes(t, false)| ==> IsAscii(t)
    decreases |t|
  {
    hide DecodeRune, RuneBytes, IsAscii;
    if t == [] {
      NothingIsAscii();
    } else {
      var (r, n) := DecodeRune(t);
      RuneIs(t);
      var chars := Runes(t, false);
      assert chars[0] == LowerChar(r, false);
      assert chars[1..] == Runes(t[n..], false);
      assert AreBytes(Runes(t[n..], false)) by {
        forall k | 0 <= k < |chars| - 1 ensures 0 <= Runes(t[n..], false)[k] < 0x100 {
          assert chars[k + 1] == Runes(t[n..], false)[k];
        }
      }
      LowerIsLonger(t[n..], toLower, lower);
      RuneBytesLength(lower(r));
      assert t == [t[0]] + t[1..];
      IsAsciiFirst(t[0], t[1..]);
    }
  }

  /** Two encodings, one of them of a rune, begin equal texts only if they are equal. */
  lemma PrefixFree(r: int, q: int, x: seq<int>, y: seq<byte>)
    requires IsScalar(r) && IsScalar(q) && EncodeScalar(r) + x == EncodeScalar(q) + y
    ensures r == q && x == y
  {
    hide EncodeScalar, DecodeRune, CharLength;
    var b, u := EncodeScalar(r), EncodeScalar(q) + y;
    assert |b + x| == |u|;
    var z := u[|b|..];
    assert x == z by {
      forall k | 0 <= k < |x| ensures x[k] == z[k] {
        assert (b + x)[|b| + k] == u[|b| + k];
      }
    }
    assert b + z == u by {
      assert forall k :: 0 <= k < |b| ==> b[k] == (b + x)[k] == u[k];
    }
    EncodeDecode(r, z);
    EncodeDecode(q, y);
  }

  /** A plain character, as it is hashed while it is read. */
  lemma {:induction false} PlainChars(s: seq<byte>, i: nat, n: nat)
    requires i + n <= |s|
    requires forall k :: i <= k < i + n ==> IsPlain(s[k]) && s[k] >= 0x80
    ensures ReadChars(s, i, false) == s[i..i + n] + ReadChars(s, i + n, false)
    ensures EscapedPart(s, i) == EscapedPart(s, i + n)
    decreases n
  {
    hide Runes, Decode;
    if n > 0 {
      PlainChars(s, i + 1, n - 1);
      PlainChar(s, i);
      assert s[i..i + n] == [s[i]] + s[i + 1..i + n];
      Append(s[i], s[i + 1..i + n], ReadChars(s, i + n, false));
    } else {
      assert s[i..i] == [];
      Nothing(ReadChars(s, i, false));
    }
  }

  lemma PlainChar(s: seq<byte>, i: nat)
    requires i < |s| && IsPlain(s[i]) && s[i] >= 0x80
    ensures ReadChars(s, i, false) == [s[i]] + ReadChars(s, i + 1, false)
    ensures EscapedPart(s, i) == EscapedPart(s, i + 1)
  {
    hide Runes, Decode;
  }

  lemma Append(a: int, x: seq<int>, y: seq<int>)
    ensures [a] + (x + y) == [a] + x + y
  {
  }

  lemma Nothing(x: seq<int>)
    ensures [] + x == x
  {
  }

  /** The runes of a string that begins with a character. */
  lemma MapFirst(c: seq<byte>, rest: seq<byte>, lower: int -> int)
    requires c != [] && CharLength(c) == |c|
    ensures var r := DecodeRune(c).0;
      IsScalar(r) && EncodeScalar(r) == c && MapRunes(c + rest, lower) == RuneBytes(lower(r)) + MapRunes(rest, lower)
  {
    hide CharLength, DecodeRune, RuneBytes, EncodeScalar;
    var r := DecodeRune(c).0;
    DecodeEncode(c);
    assert c[..|c|] == c;
    EncodeDecode(r, rest);
    assert (c + rest)[|c|..] == rest;
  }

  /** One character that is no quote and no escape, on both sides. */
  lemma CharHashed(s: seq<byte>, i: nat, end: nat, n: nat, toLower: seq<byte> -> seq<byte>, lower: int -> int)
    requires IsRunewise(toLower, lower) && i < end <= |s| && ValidUtf8(s[i..end]) && IsPlain(s[i])
    requires n == CharLength(s[i..end]) && Decode(s, i).Ok? && Decode(s, i).next == end
    ensures 0 < n <= end - i && ValidUtf8(s[i + n..end])
    ensures Decode(s, i + n).Ok? && Decode(s, i + n).next == end && EscapedPart(s, i) == EscapedPart(s, i + n)
    ensures ReadChars(s, i, false) == MapRunes(Decode(s, i).value, lower) ==>
              ReadChars(s, i + n, false) == MapRunes(Decode(s, i + n).value, lower)
  {
    hide CharLength, DecodeRune, RuneBytes, EncodeScalar, ValidUtf8, MapRunes, Escape, Decode, ReadChars, EscapedPart;
    CharIsPlain(s, i, end);
    DecodePlainRun(s, i, i + n);
    var c, rest := s[i..i + n], Decode(s, i + n).value;
    CharAlone(s[i..end]);
    assert s[i..end][..n] == c;
    MapFirst(c, rest, lower);
    var r := DecodeRune(c).0;
    OneCharRead(s, i, n, r, lower, toLower);
    if ReadChars(s, i, false) == MapRunes(Decode(s, i).value, lower) {
      assert RuneBytes(lower(r)) == EncodeScalar(lower(r)) by {
        RuneBytesIs(lower(r));
      }
      var first := if r < 0x80 then lower(r) else r;
      PrefixFree(first, lower(r), ReadChars(s, i + n, false), MapRunes(rest, lower));
    }
  }

  lemma RuneBytesIs(r: int)
    requires IsScalar(r)
    ensures RuneBytes(r) == EncodeScalar(r)
  {
  }

  /** What is hashed of one character: an ASCII letter is lowered, any other character is hashed byte by byte. */
  lemma OneCharRead(s: seq<byte>, i: nat, n: nat, r: int, lower: int -> int, toLower: seq<byte> -> seq<byte>)
    requires i + n <= |s| && 0 < n && IsScalar(r) && s[i..i + n] == EncodeScalar(r) && IsRunewise(toLower, lower)
    requires forall k :: i <= k < i + n ==> IsPlain(s[k])
    ensures var first := if r < 0x80 then lower(r) else r;
      && IsScalar(first)
      && ReadChars(s, i, false) == EncodeScalar(first) + ReadChars(s, i + n, false)
      && EscapedPart(s, i) == EscapedPart(s, i + n)
  {
    hide MapRunes, IsRunewise, ReadChars, EscapedPart, EncodeScalar;
    RunewiseScalar(toLower, lower, r);
    LowersAscii(toLower, lower, r);
    assert s[i] == s[i..i + n][0];
    if r < 0x80 {
      OneByte(r);
      OneByte(lower(r));
      AsciiChar(s, i);
    } else {
      EncodedIsHigh(r);
      assert forall k :: i <= k < i + n ==> s[k] == s[i..i + n][k - i];
      PlainChars(s, i, n);
    }
  }

  lemma OneByte(r: int)
    requires 0 <= r < 0x80
    ensures EncodeScalar(r) == [r]
  {
  }

  lemma AsciiChar(s: seq<byte>, i: nat)
    requires i < |s| && IsPlain(s[i])
    ensures ReadChars(s, i, false) == [LowerChar(s[i], false)] + ReadChars(s, i + 1, false)
    ensures EscapedPart(s, i) == EscapedPart(s, i + 1)
  {
    hide Runes, Decode;
  }

  lemma EncodedIsHigh(r: int)
    requires IsScalar(r) && r >= 0x80
    ensures forall k :: 0 <= k < |EncodeScalar(r)| ==> EncodeScalar(r)[k] >= 0x80
  {
  }

  /** A valid name that is hashed as it is lowered has nothing but ASCII behind its first escape. */
  lemma {:induction false} AlikeIsAscii(s: seq<byte>, i: nat, toLower: seq<byte> -> seq<byte>, lower: int -> int)
    requires IsRunewise(toLower, lower) && Decode(s, i).Ok? && ValidUtf8(s[i..Decode(s, i).next])
    requires ReadChars(s, i, false) == MapRunes(Decode(s, i).value, lower)
    ensures IsAscii(EscapedPart(s, i))
    decreases |s| - i
  {
    hide CharLength, ValidUtf8, MapRunes, Escape, Runes, IsAscii;
    if s[i] == QUOTE {
      NothingIsAscii();
    } else if s[i] == BACKSLASH {
      var v := Decode(s, i).value;
      assert AreBytes(MapRunes(v, lower));
      LowerIsLonger(v, toLower, lower);
    } else {
      var end := Decode(s, i).next;
      var n := CharLength(s[i..end]);
      CharHashed(s, i, end, n, toLower, lower);
      AlikeIsAscii(s, i + n, toLower, lower);
    }
  }

  /**
   * What is hashed while a valid UTF-8 name is read is what `calcHash` hashes exactly if the name is ASCII from its
   * first escape on and lowering it changes ASCII letters only.
   */
  lemma HashedAlikeUnlessCased(s: seq<byte>, i: nat, cfg: FieldConfig, lower: int -> int)
    requires !cfg.caseSensitive && IsRunewise(cfg.toLower, lower)
    requires Decode(s, i).Ok? && ValidUtf8(s[i..Decode(s, i).next])
    ensures var name := Decode(s, i).value;
      ReadChars(s, i, false) == Folded(name, cfg) <==>
        IsAscii(EscapedPart(s, i)) && cfg.toLower(name) == AsciiLower(name)
  {
    hide Decode, ReadChars, EscapedPart, ValidUtf8, MapRunes, IsAscii, AsciiLower;
    ReadCharsIff(s, i, false);
    if ReadChars(s, i, false) == Folded(Decode(s, i).value, cfg) {
      AlikeIsAscii(s, i, cfg.toLower, lower);
    }
  }
}

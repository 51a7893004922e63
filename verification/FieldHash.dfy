/** iter_object.go: the hash of a field name, calculated from a string and from the input as it is read. */
module FieldHash {
  import opened Bytes
  import opened StringMachines
  import opened Utf8
  import opened IterCore
  import opened IterStr
  import opened LookupMachines

  /** The configuration the struct decoders look at, with `strings.ToLower` as an oracle. */
  datatype FieldConfig = FieldConfig(
    caseSensitive: bool, simpleNames: bool, disallowUnknown: bool, toLower: seq<byte> -> seq<byte>)

  // ---------- The hash ----------

  const HASH_SEED: bv64 := 0x811c9dc5

  /** One step in 64-bit arithmetic that wraps around: exclusive or with the character, then the multiplication. */
  function HashStep(hash: bv64, c: int): bv64
    requires 0 <= c <= 0x10FFFF
  {
    (hash ^ (c as bv64)) * 0x1000193
  }

  /** `b += 'a' - 'A'` for an upper-case letter, unless names are case-sensitive. */
  function LowerChar(c: int, caseSensitive: bool): int {
    if 0x41 <= c <= 0x5A && !caseSensitive then c + 0x20 else c
  }

  function HashBytes(hash: bv64, t: seq<byte>): bv64
    decreases |t|
  {
    if t == [] then hash else HashBytes(HashStep(hash, t[0]), t[1..])
  }

  /** `range` over a string: rune by rune, each byte that is no UTF-8 as U+FFFD. */
  function HashRunes(hash: bv64, t: seq<byte>, caseSensitive: bool): bv64
    decreases |t|
  {
    if t == [] then hash
    else
      RuneBound(t);
      var (r, n) := DecodeRune(t);
      HashRunes(HashStep(hash, LowerChar(r, caseSensitive)), t[n..], caseSensitive)
  }

  lemma RuneBound(t: seq<byte>)
    requires t != []
    ensures 0 <= DecodeRune(t).0 <= 0x10FFFF
  {
    if CharLength(t) > 0 {
      DecodeEncode(t);
    }
  }

  function AsciiLower(t: seq<byte>): (u: seq<byte>)
    ensures |u| == |t|
  {
    if t == [] then [] else [LowerChar(t[0], false)] + AsciiLower(t[1..])
  }

  predicate IsAscii(t: seq<byte>) {
    forall k :: 0 <= k < |t| ==> t[k] < 0x80
  }

  // The letters from A to Z, and those from a to z
  const UPPER_LETTERS: seq<byte> :=
    [0x41, 0x42, 0x43, 0x44, 0x45, 0x46, 0x47, 0x48, 0x49, 0x4A, 0x4B, 0x4C, 0x4D,
     0x4E, 0x4F, 0x50, 0x51, 0x52, 0x53, 0x54, 0x55, 0x56, 0x57, 0x58, 0x59, 0x5A]
  const LOWER_LETTERS: seq<byte> :=
    [0x61, 0x62, 0x63, 0x64, 0x65, 0x66, 0x67, 0x68, 0x69, 0x6A, 0x6B, 0x6C, 0x6D,
     0x6E, 0x6F, 0x70, 0x71, 0x72, 0x73, 0x74, 0x75, 0x76, 0x77, 0x78, 0x79, 0x7A]

  /** `d` is the lower-case letter of an upper-case one, or else `c` itself. */
  predicate IsLowerOf(d: int, c: int) {
    if exists k :: 0 <= k < 26 && UPPER_LETTERS[k] == c
    then exists k :: 0 <= k < 26 && UPPER_LETTERS[k] == c && LOWER_LETTERS[k] == d
    else d == c
  }

  /** What is known of `strings.ToLower`: on ASCII it lowers the letters, and lowering twice is lowering once. */
  ghost predicate IsToLower(toLower: seq<byte> -> seq<byte>) {
    && (forall t :: IsAscii(t) ==> |toLower(t)| == |t| && forall k :: 0 <= k < |t| ==> IsLowerOf(toLower(t)[k], t[k]))
    && (forall t :: toLower(toLower(t)) == toLower(t))
  }

  lemma LetterIs(k: nat)
    requires k < 26
    ensures UPPER_LETTERS[k] == 0x41 + k && LOWER_LETTERS[k] == 0x61 + k
  {
    assert k == 0 || k == 1 || k == 2 || k == 3 || k == 4 || k == 5 || k == 6 || k == 7 || k == 8 || k == 9 || k == 10
        || k == 11 || k == 12 || k == 13 || k == 14 || k == 15 || k == 16 || k == 17 || k == 18 || k == 19 || k == 20
        || k == 21 || k == 22 || k == 23 || k == 24 || k == 25;
  }

  lemma LowerOfIs(d: int, c: int)
    ensures IsLowerOf(d, c) <==> d == LowerChar(c, false)
  {
    forall k: nat | k < 26 ensures UPPER_LETTERS[k] == 0x41 + k && LOWER_LETTERS[k] == 0x61 + k {
      LetterIs(k);
    }
    if 0x41 <= c <= 0x5A {
      assert UPPER_LETTERS[c - 0x41] == c;
    }
  }

  lemma {:induction false} AsciiLowerAt(t: seq<byte>, k: nat)
    requires k < |t|
    ensures AsciiLower(t)[k] == LowerChar(t[k], false)
    decreases k
  {
    if k > 0 {
      AsciiLowerAt(t[1..], k - 1);
    }
  }

  lemma ToLowerIs(toLower: seq<byte> -> seq<byte>, t: seq<byte>)
    requires IsToLower(toLower) && IsAscii(t)
    ensures toLower(t) == AsciiLower(t)
  {
    hide LowerChar, IsLowerOf, AsciiLower;
    forall k | 0 <= k < |t| ensures toLower(t)[k] == AsciiLower(t)[k] {
      AsciiLowerAt(t, k);
      LowerOfIs(toLower(t)[k], t[k]);
    }
  }

  /** A name as it is compared. */
  function Folded(str: seq<byte>, cfg: FieldConfig): seq<byte> {
    if cfg.caseSensitive then str else cfg.toLower(str)
  }

  function CalcHashOf(str: seq<byte>, cfg: FieldConfig): bv64 {
    HashBytes(HASH_SEED, Folded(str, cfg))
  }

  /** `calcHash` */
  method CalcHash(str: seq<byte>, cfg: FieldConfig) returns (hash: bv64)
    ensures hash == CalcHashOf(str, cfg)
  {
    hide HashStep;
    var t := if cfg.caseSensitive then str else cfg.toLower(str);
    hash := HASH_SEED;
    assert t[0..] == t;
    var i := 0;
    while i < |t|
      invariant 0 <= i <= |t|
      invariant HashBytes(hash, t[i..]) == HashBytes(HASH_SEED, t)
    {
      assert t[i..][1..] == t[i + 1..];
      hash := HashStep(hash, t[i]);
      i := i + 1;
    }
  }

  // ---------- Hashing while reading ----------

  /** A name read and hashed, with its colon; or an error. */
  datatype Hashed = Hashed(hash: bv64, next: nat) | NoHash

  function HashColon(s: seq<byte>, i: nat, hash: bv64): (r: Hashed)
    requires i <= |s|
    ensures r.Hashed? ==> i < r.next <= |s|
  {
    var t := SkipWhitespace(s, i);
    if t < |s| && s[t] == COLON then Hashed(hash, t + 1) else NoHash
  }

  /** The loops of `readFieldHash`: bytes are hashed as they come until a quote or the first escape. */
  function HashScan(s: seq<byte>, i: nat, hash: bv64, caseSensitive: bool): (r: Hashed)
    ensures r.Hashed? ==> i < r.next <= |s|
    decreases |s| - i
  {
    if i >= |s| then NoHash
    else if s[i] == BACKSLASH then
      match Decode(s, i)
      case Ok(rest, next) => HashColon(s, next, HashRunes(hash, rest, caseSensitive))
      case Bad => NoHash
    else if s[i] == QUOTE then HashColon(s, i + 1, hash)
    else HashScan(s, i + 1, HashStep(hash, LowerChar(s[i], caseSensitive)), caseSensitive)
  }

  /** `readFieldHash` in front of position `i`. */
  function FieldHashAt(s: seq<byte>, i: nat, caseSensitive: bool): (r: Hashed)
    requires i <= |s|
    ensures r.Hashed? ==> i < r.next <= |s|
  {
    var j := SkipWhitespace(s, i);
    if j < |s| && s[j] == QUOTE then HashScan(s, j + 1, HASH_SEED, caseSensitive) else NoHash
  }

  // ---------- Both hashes agree on ASCII names ----------

  lemma {:induction false} RunesAreBytes(hash: bv64, t: seq<byte>, caseSensitive: bool)
    requires IsAscii(t)
    ensures HashRunes(hash, t, caseSensitive) == HashBytes(hash, if caseSensitive then t else AsciiLower(t))
    decreases |t|
  {
    hide HashStep;
    if t != [] {
      var c := LowerChar(t[0], caseSensitive);
      assert DecodeRune(t) == (t[0], 1);
      RunesAreBytes(HashStep(hash, c), t[1..], caseSensitive);
      var u := if caseSensitive then t else AsciiLower(t);
      assert u[0] == c && u[1..] == if caseSensitive then t[1..] else AsciiLower(t[1..]);
    }
  }

  /** What the name that starts at `i` decodes to from its first escape on. */
  function EscapedPart(s: seq<byte>, i: nat): seq<byte>
    decreases |s| - i
  {
    if i >= |s| || s[i] == QUOTE then []
    else if s[i] == BACKSLASH then (match Decode(s, i) case Ok(v, _) => v case Bad => [])
    else EscapedPart(s, i + 1)
  }

  function Lowered(t: seq<byte>, caseSensitive: bool): seq<byte> {
    if caseSensitive then t else AsciiLower(t)
  }

  lemma LoweredFirst(c: byte, t: seq<byte>, caseSensitive: bool)
    ensures Lowered([c] + t, caseSensitive) == [LowerChar(c, caseSensitive)] + Lowered(t, caseSensitive)
  {
    assert ([c] + t)[1..] == t;
  }

  /**
   * Where a name decodes to ASCII from its first escape on, hashing it while it is read hashes the bytes of the
   * decoded name, ASCII letters lowered.
   */
  lemma {:induction false} ScanIsBytes(s: seq<byte>, i: nat, hash: bv64, caseSensitive: bool)
    requires Decode(s, i).Ok? && IsAscii(EscapedPart(s, i))
    ensures HashScan(s, i, hash, caseSensitive) ==
            HashColon(s, Decode(s, i).next, HashBytes(hash, Lowered(Decode(s, i).value, caseSensitive)))
    decreases |s| - i
  {
    hide HashStep, HashColon, Escape, AsciiLower, Lowered;
    if s[i] == QUOTE {
      RunesAreBytes(hash, [], caseSensitive);
      LoweredIs([], caseSensitive);
    } else if s[i] == BACKSLASH {
      RunesAreBytes(hash, Decode(s, i).value, caseSensitive);
      LoweredIs(Decode(s, i).value, caseSensitive);
    } else {
      var c := LowerChar(s[i], caseSensitive);
      var rest := Decode(s, i + 1).value;
      ScanIsBytes(s, i + 1, HashStep(hash, c), caseSensitive);
      LoweredFirst(s[i], rest, caseSensitive);
      FirstByteHashed(hash, c, Lowered(rest, caseSensitive));
    }
  }

  lemma LoweredIs(t: seq<byte>, caseSensitive: bool)
    ensures Lowered(t, caseSensitive) == if caseSensitive then t else AsciiLower(t)
  {
  }

  lemma FirstByteHashed(hash: bv64, c: byte, t: seq<byte>)
    ensures HashBytes(hash, [c] + t) == HashBytes(HashStep(hash, c), t)
  {
    hide HashStep;
    assert ([c] + t)[1..] == t;
  }

  /**
   * A name for which both hashes are made of the same bytes: what is decoded from its first escape on is ASCII;
   * and, unless names are case-sensitive, lowering the name changes no more than its ASCII letters. `body` is the
   * text between the quotes.
   */
  predicate IsHashedAlike(body: seq<byte>, cfg: FieldConfig) {
    var d := Decode(body + [QUOTE], 0);
    && IsAscii(EscapedPart(body + [QUOTE], 0))
    && (d.Ok? && !cfg.caseSensitive ==> cfg.toLower(d.value) == AsciiLower(d.value))
  }

  /** The condition at the place where the name stands. */
  lemma ReadHashIsCalcHash(s: seq<byte>, i: nat, cfg: FieldConfig)
    requires i <= |s| && SkipWhitespace(s, i) < |s| && s[SkipWhitespace(s, i)] == QUOTE
    requires var k := SkipWhitespace(s, i) + 1;
      && Decode(s, k).Ok? && IsAscii(EscapedPart(s, k))
      && (!cfg.caseSensitive ==> cfg.toLower(Decode(s, k).value) == AsciiLower(Decode(s, k).value))
    ensures var d := Decode(s, SkipWhitespace(s, i) + 1);
      FieldHashAt(s, i, cfg.caseSensitive) == HashColon(s, d.next, CalcHashOf(d.value, cfg))
  {
    hide HashStep, HashColon, Decode, HashScan;
    ScanIsBytes(s, SkipWhitespace(s, i) + 1, HASH_SEED, cfg.caseSensitive);
  }

  /** The escaped part of a name is that of its text by itself. */
  lemma {:induction false} EscapedPartLocal(s: seq<byte>, i: nat, t: seq<byte>, j: nat)
    requires Decode(s, i).Ok? && At(t, j, s[i..Decode(s, i).next])
    ensures EscapedPart(t, j) == EscapedPart(s, i)
    decreases |s| - i
  {
    hide Escape, At;
    var end := Decode(s, i).next;
    AtSlice(s, i, end, t, j);
    AtIndex(t, j, s[i..end], 0);
    if s[i] == BACKSLASH {
      RawEndIffDecode(s, i);
      DecodeLocal(s, i, t, j);
    } else if s[i] != QUOTE {
      AtSuffix(s, i, end, t, j, i + 1);
      EscapedPartLocal(s, i + 1, t, j + 1);
    }
  }

  // ---------- What is hashed, exactly ----------

  /** The characters that `range` gives for a string. */
  function Runes(t: seq<byte>, caseSensitive: bool): seq<int>
    decreases |t|
  {
    if t == [] then []
    else [LowerChar(DecodeRune(t).0, caseSensitive)] + Runes(t[DecodeRune(t).1..], caseSensitive)
  }

  /** The characters that are hashed while a name is read. */
  function ReadChars(s: seq<byte>, i: nat, caseSensitive: bool): seq<int>
    decreases |s| - i
  {
    if i >= |s| || s[i] == QUOTE then []
    else if s[i] == BACKSLASH then Runes(EscapedPart(s, i), caseSensitive)
    else [LowerChar(s[i], caseSensitive)] + ReadChars(s, i + 1, caseSensitive)
  }

  predicate AreHashable(chars: seq<int>) {
    forall k :: 0 <= k < |chars| ==> 0 <= chars[k] <= 0x10FFFF
  }

  function HashChars(hash: bv64, chars: seq<int>): bv64
    requires AreHashable(chars)
    decreases |chars|
  {
    if chars == [] then hash else HashChars(HashStep(hash, chars[0]), chars[1..])
  }

  lemma {:induction false} BytesAreChars(hash: bv64, t: seq<byte>)
    ensures AreHashable(t) && HashBytes(hash, t) == HashChars(hash, t)
    decreases |t|
  {
    hide HashStep;
    if t != [] {
      BytesAreChars(HashStep(hash, t[0]), t[1..]);
    }
  }

  lemma {:induction false} RunesAreChars(hash: bv64, t: seq<byte>, caseSensitive: bool)
    ensures AreHashable(Runes(t, caseSensitive))
    ensures HashRunes(hash, t, caseSensitive) == HashChars(hash, Runes(t, caseSensitive))
    decreases |t|
  {
    hide HashStep, DecodeRune;
    if t != [] {
      RuneBound(t);
      var (r, n) := DecodeRune(t);
      var c := LowerChar(r, caseSensitive);
      RunesAreChars(HashStep(hash, c), t[n..], caseSensitive);
      assert Runes(t, caseSensitive)[1..] == Runes(t[n..], caseSensitive);
    }
  }

  /** Where the bytes of a name that are hashed as they come end: at a quote or at the first escape. */
  function PlainStop(s: seq<byte>, i: nat): (e: nat)
    requires i <= |s|
    ensures i <= e <= |s|
    decreases |s| - i
  {
    if i == |s| || s[i] == QUOTE || s[i] == BACKSLASH then i else PlainStop(s, i + 1)
  }

  /**
   * What `readFieldHash` makes of a name, valid or not: it does not look at the bytes before the first escape, so
   * it takes control characters there.
   */
  lemma {:induction false} ScanIsChars(s: seq<byte>, i: nat, hash: bv64, caseSensitive: bool)
    requires i <= |s|
    ensures AreHashable(ReadChars(s, i, caseSensitive))
    ensures HashScan(s, i, hash, caseSensitive) ==
            match Decode(s, PlainStop(s, i))
            case Ok(_, next) => HashColon(s, next, HashChars(hash, ReadChars(s, i, caseSensitive)))
            case Bad => NoHash
    decreases |s| - i
  {
    hide HashStep, HashColon, Escape, Runes;
    if i == |s| || s[i] == QUOTE {
    } else if s[i] == BACKSLASH {
      RunesAreChars(hash, EscapedPart(s, i), caseSensitive);
    } else {
      var c := LowerChar(s[i], caseSensitive);
      ScanIsChars(s, i + 1, HashStep(hash, c), caseSensitive);
      assert ReadChars(s, i, caseSensitive)[1..] == ReadChars(s, i + 1, caseSensitive);
    }
  }

  /** A valid name ends where that reading ends. */
  lemma {:induction false} DecodeFromStop(s: seq<byte>, i: nat)
    requires i <= |s| && Decode(s, i).Ok?
    ensures Decode(s, PlainStop(s, i)).Ok? && Decode(s, PlainStop(s, i)).next == Decode(s, i).next
    decreases |s| - i
  {
    hide Escape;
    if s[i] != QUOTE && s[i] != BACKSLASH {
      DecodeFromStop(s, i + 1);
    }
  }

  /** What is hashed of a name depends on its own text alone. */
  lemma {:induction false} ReadCharsLocal(s: seq<byte>, i: nat, t: seq<byte>, j: nat, caseSensitive: bool)
    requires Decode(s, i).Ok? && At(t, j, s[i..Decode(s, i).next])
    ensures ReadChars(t, j, caseSensitive) == ReadChars(s, i, caseSensitive)
    decreases |s| - i
  {
    hide Escape, At, Runes;
    var end := Decode(s, i).next;
    AtSlice(s, i, end, t, j);
    AtIndex(t, j, s[i..end], 0);
    if s[i] == BACKSLASH {
      EscapedPartLocal(s, i, t, j);
    } else if s[i] != QUOTE {
      AtSuffix(s, i, end, t, j, i + 1);
      ReadCharsLocal(s, i + 1, t, j + 1, caseSensitive);
    }
  }

  lemma ConsIff(a: int, b: int, x: seq<int>, y: seq<int>)
    ensures [a] + x == [b] + y <==> a == b && x == y
  {
    assert ([a] + x)[0] == a && ([b] + y)[0] == b;
    assert ([a] + x)[1..] == x && ([b] + y)[1..] == y;
  }

  lemma IsAsciiFirst(c: byte, t: seq<byte>)
    ensures IsAscii([c] + t) <==> c < 0x80 && IsAscii(t)
  {
    if IsAscii([c] + t) {
      assert ([c] + t)[0] == c && forall k :: 0 <= k < |t| ==> ([c] + t)[k + 1] == t[k];
    }
  }

  lemma LoweredLength(t: seq<byte>, caseSensitive: bool)
    ensures |Lowered(t, caseSensitive)| == |t|
  {
  }

  /** Runes are bytes exactly in ASCII: any other rune has more bytes than one, or is none of them. */
  lemma {:induction false} RunesAreBytesIff(t: seq<byte>, caseSensitive: bool)
    ensures |Runes(t, caseSensitive)| <= |t|
    ensures Runes(t, caseSensitive) == Lowered(t, caseSensitive) <==> IsAscii(t)
    decreases |t|
  {
    hide DecodeRune, Lowered, IsAscii;
    LoweredLength(t, caseSensitive);
    if t == [] {
      NothingIsAscii();
    } else {
      var (r, n) := DecodeRune(t);
      RuneSize(t);
      RunesAreBytesIff(t[n..], caseSensitive);
      IsAsciiFirst(t[0], t[1..]);
      assert t == [t[0]] + t[1..];
      if n == 1 {
        LoweredFirst(t[0], t[1..], caseSensitive);
        ConsIff(LowerChar(r, caseSensitive), LowerChar(t[0], caseSensitive), Runes(t[1..], caseSensitive),
                Lowered(t[1..], caseSensitive));
      }
    }
  }

  lemma NothingIsAscii()
    ensures IsAscii([])
  {
  }

  lemma RuneSize(t: seq<byte>)
    requires t != []
    ensures var (r, n) := DecodeRune(t);
      && 1 <= n <= |t| && (n == 1 ==> r == if t[0] < 0x80 then t[0] else REPLACEMENT) && (n > 1 ==> t[0] >= 0x80)
  {
  }

  /** The characters hashed while reading are the bytes of the name exactly if its escaped part is ASCII. */
  lemma {:induction false} ReadCharsIff(s: seq<byte>, i: nat, caseSensitive: bool)
    requires Decode(s, i).Ok?
    ensures |ReadChars(s, i, caseSensitive)| <= |Decode(s, i).value|
    ensures ReadChars(s, i, caseSensitive) == Lowered(Decode(s, i).value, caseSensitive) <==> IsAscii(EscapedPart(s, i))
    decreases |s| - i
  {
    hide Escape, Runes, Lowered;
    if s[i] == QUOTE {
      LoweredIs([], caseSensitive);
      NothingIsAscii();
    } else if s[i] == BACKSLASH {
      RunesAreBytesIff(Decode(s, i).value, caseSensitive);
    } else {
      ReadCharsIff(s, i + 1, caseSensitive);
      LoweredFirst(s[i], Decode(s, i + 1).value, caseSensitive);
      ConsIff(LowerChar(s[i], caseSensitive), LowerChar(s[i], caseSensitive), ReadChars(s, i + 1, caseSensitive),
              Lowered(Decode(s, i + 1).value, caseSensitive));
    }
  }

  /**
   * What is hashed while a name is read, against what `calcHash` hashes. With case-sensitive names it is the same
   * exactly if the escaped part is ASCII; without, where that is so, exactly if lowering the name changes its
   * ASCII letters only. Other names have the same hash only by a collision.
   */
  lemma HashedAlikeIff(s: seq<byte>, i: nat, cfg: FieldConfig)
    requires i <= |s| && SkipWhitespace(s, i) < |s| && s[SkipWhitespace(s, i)] == QUOTE
    requires Decode(s, SkipWhitespace(s, i) + 1).Ok?
    ensures var k := SkipWhitespace(s, i) + 1;
      var name, chars := Decode(s, k).value, ReadChars(s, k, cfg.caseSensitive);
      && AreHashable(chars) && AreHashable(Folded(name, cfg))
      && FieldHashAt(s, i, cfg.caseSensitive) == HashColon(s, Decode(s, k).next, HashChars(HASH_SEED, chars))
      && CalcHashOf(name, cfg) == HashChars(HASH_SEED, Folded(name, cfg))
      && (cfg.caseSensitive ==> (chars == Folded(name, cfg) <==> IsAscii(EscapedPart(s, k))))
      && (!cfg.caseSensitive && IsAscii(EscapedPart(s, k)) ==>
            (chars == Folded(name, cfg) <==> cfg.toLower(name) == AsciiLower(name)))
  {
    hide HashStep, HashColon, Decode, HashScan, HashChars, HashBytes;
    var k := SkipWhitespace(s, i) + 1;
    ScanIsChars(s, k, HASH_SEED, cfg.caseSensitive);
    DecodeFromStop(s, k);
    ReadCharsIff(s, k, cfg.caseSensitive);
    BytesAreChars(HASH_SEED, Folded(Decode(s, k).value, cfg));
  }

  // ---------- Names whose hashes differ ----------

  /** `"\u00e9":` */
  const ESCAPED_NAME: seq<byte> := [QUOTE, BACKSLASH, LOWER_U, ZERO, ZERO, LOWER_E, 0x39, QUOTE, COLON]

  /** `"É":`, the letter as the bytes C3 89 */
  const UPPER_NAME: seq<byte> := [QUOTE, 0xC3, 0x89, QUOTE, COLON]

  /** Behind an escape the rune E9 is hashed, not its bytes C3 A9. */
  lemma EscapedNonAsciiDiffers(cfg: FieldConfig)
    requires cfg.caseSensitive
    ensures StringToken(ESCAPED_NAME, 0) == Ok([0xC3, 0xA9], 8)
    ensures FieldHashAt(ESCAPED_NAME, 0, true).Hashed?
    ensures FieldHashAt(ESCAPED_NAME, 0, true).hash != CalcHashOf([0xC3, 0xA9], cfg)
  {
    var s, t: seq<byte> := ESCAPED_NAME, [0xC3, 0xA9];
    SkipNothing(s, 0);
    SkipNothing(s, 8);
    assert U4(s, 3) == 0xE9 && Escape(s, 2) == Ok(t, 7);
    assert Decode(s, 7) == Ok([], 8);
    assert t + [] == t;
    assert Decode(s, 1) == Ok(t, 8);
    OneRune(t);
    TwoBytes(t);
  }

  lemma OneRune(t: seq<byte>)
    requires t == [0xC3, 0xA9]
    ensures HashRunes(HASH_SEED, t, true) == HashStep(HASH_SEED, 0xE9)
  {
    assert DecodeRune(t) == (0xE9, 2) && t[2..] == [];
  }

  lemma TwoBytes(t: seq<byte>)
    requires |t| == 2
    ensures HashBytes(HASH_SEED, t) == HashStep(HashStep(HASH_SEED, t[0]), t[1])
  {
    hide HashStep;
    var u := t[1..];
    assert u == [t[1]] && u[1..] == [];
    assert HashBytes(HashStep(HashStep(HASH_SEED, t[0]), t[1]), u[1..]) == HashStep(HashStep(HASH_SEED, t[0]), t[1]);
    assert HashBytes(HashStep(HASH_SEED, t[0]), u) == HashStep(HashStep(HASH_SEED, t[0]), t[1]);
  }

  /** Without an escape, the upper-case letter is hashed as it is; `calcHash` lowers it to C3 A9. */
  lemma UpperNonAsciiDiffers(cfg: FieldConfig)
    requires !cfg.caseSensitive && cfg.toLower([0xC3, 0x89]) == [0xC3, 0xA9]
    ensures StringToken(UPPER_NAME, 0) == Ok([0xC3, 0x89], 4)
    ensures FieldHashAt(UPPER_NAME, 0, false).Hashed?
    ensures FieldHashAt(UPPER_NAME, 0, false).hash != CalcHashOf([0xC3, 0x89], cfg)
  {
    hide HashStep;
    var s := UPPER_NAME;
    UpperNameThere();
    TwoBytes([0xC3, 0xA9]);
    TwoBytes([0xC3, 0x89]);
    OtherSteps();
  }

  lemma UpperNameThere()
    ensures StringToken(UPPER_NAME, 0) == Ok([0xC3, 0x89], 4)
    ensures FieldHashAt(UPPER_NAME, 0, false) == Hashed(HashStep(HashStep(HASH_SEED, 0xC3), 0x89), 5)
  {
    hide HashStep;
    var s := UPPER_NAME;
    SkipNothing(s, 0);
    SkipNothing(s, 4);
    assert Decode(s, 3) == Ok([], 4);
    assert [0x89] + [] == [0x89] && [0xC3] + [0x89] == [0xC3, 0x89];
    assert Decode(s, 2) == Ok([0x89], 4);
    assert Decode(s, 1) == Ok([0xC3, 0x89], 4);
    assert HashScan(s, 2, HashStep(HASH_SEED, 0xC3), false)
        == HashScan(s, 3, HashStep(HashStep(HASH_SEED, 0xC3), 0x89), false);
  }

  lemma UpperSteps()
    ensures HashStep(HASH_SEED, 0xC3) == 0x811D68460B3072
    ensures HashStep(0x811D68460B3072, 0x89) == 0x338756573E9E1B21
    ensures HashStep(0x811D68460B3072, 0xA9) == 0x338756571E9DE8C1
  {
  }

  lemma OtherSteps()
    ensures HashStep(HashStep(HASH_SEED, 0xC3), 0x89) != HashStep(HashStep(HASH_SEED, 0xC3), 0xA9)
  {
    hide HashStep;
    UpperSteps();
  }

  // ---------- readFieldHash ----------

  /** The rune loop of `readFieldHash` over the decoded rest of a name. */
  method HashRest(hash0: bv64, rest: seq<byte>, caseSensitive: bool) returns (hash: bv64)
    ensures hash == HashRunes(hash0, rest, caseSensitive)
  {
    hide HashStep, DecodeRune;
    hash := hash0;
    var t := rest;
    while t != []
      invariant HashRunes(hash, t, caseSensitive) == HashRunes(hash0, rest, caseSensitive)
      decreases |t|
    {
      RuneBound(t);
      var (b, size) := DecodeRune(t);
      if 0x41 <= b <= 0x5A && !caseSensitive {
        b := b + 0x20;
      }
      hash := HashStep(hash, b);
      t := t[size..];
    }
  }

  /** The token behind a name, which must be a colon. */
  method ReadHashColon(iter: Iterator, hash: bv64) returns (ret: bv64)
    requires iter.Valid()
    modifies iter, iter.buf
    ensures iter.Kept()
    ensures old(iter.err) == Other ==> iter.err == Other
    ensures old(iter.err) == NoError ==>
              match HashColon(iter.input, old(iter.Pos()), hash)
              case Hashed(h, next) => ret == h && iter.Pos() == next && iter.err == NoError
              case NoHash => iter.err == Other
  {
    hide iter.BufferValid, iter.ReaderValid, iter.CapturedTo;
    var c := iter.NextToken();
    if c != COLON {
      iter.UnreadByte();
      iter.ReportError();
      return 0;
    }
    return hash;
  }

  /** One buffer of `readFieldHash`: the index of a quote or a backslash, or the end of the buffer. */
  method HashBuffer(iter: Iterator, hash0: bv64, caseSensitive: bool) returns (i: int, hash: bv64)
    requires iter.Valid()
    ensures iter.head <= i <= iter.tail
    ensures i < iter.tail ==>
              iter.input[iter.inputOffset + i] == BACKSLASH || iter.input[iter.inputOffset + i] == QUOTE
    ensures HashScan(iter.input, iter.Pos(), hash0, caseSensitive) ==
            HashScan(iter.input, iter.inputOffset + i, hash, caseSensitive)
  {
    hide iter.BufferValid, iter.ReaderValid, iter.CapturedTo, HashStep, Decode, HashColon;
    hash := hash0;
    i := iter.head;
    while i < iter.tail
      invariant iter.head <= i <= iter.tail
      invariant HashScan(iter.input, iter.Pos(), hash0, caseSensitive) ==
                HashScan(iter.input, iter.inputOffset + i, hash, caseSensitive)
    {
      iter.BufferAt(i);
      var b: int := iter.buf[i];
      if b == BACKSLASH || b == QUOTE {
        return;
      }
      if 0x41 <= b <= 0x5A && !caseSensitive {
        b := b + 0x20;
      }
      hash := HashStep(hash, b);
      i := i + 1;
    }
  }

  /** The branches of `readFieldHash` for a backslash and for the closing quote at index `i`. */
  method HashEnd(iter: Iterator, i: int, hash0: bv64, caseSensitive: bool) returns (hash: bv64)
    requires iter.Valid() && iter.head <= i < iter.tail
    requires iter.input[iter.inputOffset + i] == BACKSLASH || iter.input[iter.inputOffset + i] == QUOTE
    modifies iter, iter.buf
    ensures iter.Kept()
    ensures old(iter.err) == NoError ==>
              HashOutcome(iter, HashScan(iter.input, old(iter.inputOffset + i), hash0, caseSensitive), hash)
  {
    hide iter.BufferValid, iter.ReaderValid, iter.CapturedTo, HashStep, Decode, HashColon, HashRunes;
    iter.BufferAt(i);
    var b := iter.buf[i];
    if b == BACKSLASH {
      iter.head := i;
      var rest := ReadStringInner(iter);
      hash := HashRest(hash0, rest, caseSensitive);
      hash := ReadHashColon(iter, hash);
    } else {
      iter.head := i + 1;
      hash := ReadHashColon(iter, hash0);
    }
  }

  ghost predicate HashOutcome(iter: Iterator, r: Hashed, hash: bv64)
    reads iter
  {
    match r
    case Hashed(h, next) => hash == h && iter.Pos() == next && iter.err == NoError
    case NoHash => iter.err == Other
  }

  /** The loop of `readFieldHash` behind the opening quote. */
  method HashName(iter: Iterator, hash0: bv64, caseSensitive: bool) returns (hash: bv64)
    requires iter.Valid()
    modifies iter, iter.buf
    ensures iter.Kept()
    ensures old(iter.err) == NoError ==>
              HashOutcome(iter, HashScan(iter.input, old(iter.Pos()), hash0, caseSensitive), hash)
  {
    hide iter.BufferValid, iter.ReaderValid, iter.CapturedTo, HashScan;
    hash := hash0;
    while true
      invariant iter.Kept() && iter.err == old(iter.err)
      invariant HashScan(iter.input, old(iter.Pos()), hash0, caseSensitive) ==
                HashScan(iter.input, iter.Pos(), hash, caseSensitive)
      decreases |iter.input| - iter.inputOffset - iter.tail
    {
      var i;
      i, hash := HashBuffer(iter, hash, caseSensitive);
      if i < iter.tail {
        hash := HashEnd(iter, i, hash, caseSensitive);
        return;
      }
      HashScanAtEnd(iter.input, hash, caseSensitive);
      var more := iter.LoadMore();
      if !more {
        iter.ReportError();
        return 0;
      }
    }
  }

  /** `readFieldHash` */
  method ReadFieldHash(iter: Iterator, caseSensitive: bool) returns (hash: bv64)
    requires iter.Valid()
    modifies iter, iter.buf
    ensures iter.Kept()
    ensures old(iter.err) == NoError ==>
              HashOutcome(iter, FieldHashAt(iter.input, old(iter.Pos()), caseSensitive), hash)
    ensures SkipWhitespace(iter.input, old(iter.Pos())) == |iter.input| ==> iter.err == Other
  {
    hide iter.BufferValid, iter.ReaderValid, iter.CapturedTo, HashScan, HASH_SEED;
    var c := iter.NextToken();
    if c != QUOTE {
      iter.UnreadByte();
      iter.ReportError();
      return 0;
    }
    hash := HashName(iter, HASH_SEED, caseSensitive);
  }

  lemma HashScanAtEnd(s: seq<byte>, hash: bv64, caseSensitive: bool)
    ensures HashScan(s, |s|, hash, caseSensitive) == NoHash
  {
  }
}

/**
 * What the readers of arrays, objects and structs make of every input: a null, a value of another kind, and the
 * places from which `ReadArray` and `ReadObjectRaw` are called.
 */
module PullTheorems {
  import opened Bytes
  import opened StringMachines
  import opened IterCore
  import opened ValueMachines
  import opened LookupMachines
  import opened FieldHash
  import opened StructMachines

  const NULL_LITERAL: seq<byte> := [0x6E, 0x75, 0x6C, 0x6C]

  lemma NullHere(s: seq<byte>, j: nat)
    ensures At(s, j, NULL_LITERAL) <==> j < |s| && s[j] == LOWER_N && At(s, j + 1, ULL)
    ensures At(s, j, NULL_LITERAL) ==> j + 4 <= |s|
  {
    assert NULL_LITERAL == [LOWER_N] + ULL;
    AtByte(s, j, LOWER_N);
    AtConcat(s, j, [LOWER_N], ULL);
  }

  /**
   * Every reader of arrays, objects and structs takes a null behind whitespace for an empty one, and stops just
   * behind it without looking at the depth.
   */
  lemma NullIsEmpty(s: seq<byte>, i: nat, d: Decoder, cfg: FieldConfig, depth: int, m: Mode)
    requires i <= |s| && At(s, SkipWhitespace(s, i), NULL_LITERAL)
    ensures var e := SkipWhitespace(s, i) + 4;
      && ArrayAt(s, i, depth, m) == Done([], e) && ObjectAt(s, i, depth, m) == Done([], e)
      && ElementAt(s, i) == Ended(e) && FieldAt(s, i) == Ended(e)
      && StartAt(s, i) == NoFields(e) && StructAt(s, i, d, cfg, depth, m) == Done([], e)
  {
    hide At, AfterBracket, AfterBrace, FirstFieldAt, NextFieldAt, StructFields;
    NullHere(s, SkipWhitespace(s, i));
    if d.SkipObject? {
      NullIsSkipped(s, SkipWhitespace(s, i), depth, m.(visitor := Skipping));
    }
  }

  lemma NullIsSkipped(s: seq<byte>, j: nat, depth: int, m: Mode)
    requires j < |s| && s[j] == LOWER_N && At(s, j + 1, ULL)
    ensures ValueAt(s, j, depth, m).Done? && ValueAt(s, j, depth, m).next == j + 4
  {
    hide At, ArrayAt, ObjectAt;
    SkipNothing(s, j);
  }

  /** Anything else but an opening bracket or brace is an error. */
  lemma OthersFail(s: seq<byte>, i: nat, d: Decoder, cfg: FieldConfig, depth: int, m: Mode)
    requires i <= |s| && !At(s, SkipWhitespace(s, i), NULL_LITERAL)
    ensures var j := SkipWhitespace(s, i);
      && (j == |s| || s[j] != 0x5B ==> ArrayAt(s, i, depth, m) == Fails)
      && (j == |s| || s[j] != 0x7B ==>
            && ObjectAt(s, i, depth, m) == Fails && StartAt(s, i) == NoObject
            && StructAt(s, i, d, cfg, depth, m) == Fails)
  {
    hide At, AfterBracket, AfterBrace, FirstFieldAt, NextFieldAt, StructFields;
    var j := SkipWhitespace(s, i);
    NullHere(s, j);
    if j < |s| && s[j] == LOWER_N {
      OtherIsNotSkipped(s, j, depth, m.(visitor := Skipping));
    }
  }

  lemma OtherIsNotSkipped(s: seq<byte>, j: nat, depth: int, m: Mode)
    requires j < |s| && s[j] == LOWER_N && !At(s, j + 1, ULL)
    ensures ValueAt(s, j, depth, m) == Fails
  {
    hide At, ArrayAt, ObjectAt;
    SkipNothing(s, j);
  }

  /** A string in front of position `i` with a colon behind it. */
  predicate NameStands(s: seq<byte>, i: nat)
    requires i <= |s|
  {
    var k := SkipWhitespace(s, i);
    && k < |s| && s[k] == 0x22 && Decode(s, k + 1).Ok?
    && var e := SkipWhitespace(s, Decode(s, k + 1).next);
    && e < |s| && s[e] == 0x3A
  }

  /** `ReadObjectRaw` finds a field behind an opening brace or a comma, exactly if its name and its colon are there. */
  lemma FieldFoundIff(s: seq<byte>, i: nat)
    requires i <= |s|
    ensures var j := SkipWhitespace(s, i);
      && (FieldAt(s, i).Found? <==> j < |s| && (s[j] == 0x7B || s[j] == 0x2C) && NameStands(s, j + 1))
      && (FieldAt(s, i).Found? ==>
            var d := Decode(s, SkipWhitespace(s, j + 1) + 1);
            FieldAt(s, i) == Found(d.value, SkipWhitespace(s, d.next) + 1))
  {
    hide Decode, At, FirstFieldAt, NextFieldAt, NameStands;
    var j := SkipWhitespace(s, i);
    if j < |s| {
      FirstFoundIff(s, j + 1);
      NextFoundIff(s, j + 1);
    }
  }

  lemma FirstFoundIff(s: seq<byte>, i: nat)
    requires i <= |s|
    ensures FirstFieldAt(s, i).Found? <==> NameStands(s, i)
    ensures FirstFieldAt(s, i).Found? ==>
              var d := Decode(s, SkipWhitespace(s, i) + 1);
              FirstFieldAt(s, i) == Found(d.value, SkipWhitespace(s, d.next) + 1)
  {
    hide Decode;
  }

  lemma NextFoundIff(s: seq<byte>, i: nat)
    requires i <= |s|
    ensures NextFieldAt(s, i).Found? <==> NameStands(s, i)
    ensures NextFieldAt(s, i).Found? ==>
              var d := Decode(s, SkipWhitespace(s, i) + 1);
              NextFieldAt(s, i) == Found(d.value, SkipWhitespace(s, d.next) + 1)
  {
    hide Decode, RawEnd, At;
    RawEndIffDecode(s, SkipWhitespace(s, i) + 1);
  }

  /** That byte behind whitespace. */
  predicate AtByteBehind(s: seq<byte>, i: nat, c: byte) {
    i <= |s| && SkipWhitespace(s, i) < |s| && s[SkipWhitespace(s, i)] == c
  }

  /**
   * It ends an object at a closing brace, also of an empty object, at a null, and at a null with a colon behind a
   * comma; all else is an error.
   */
  lemma FieldEndedIff(s: seq<byte>, i: nat)
    requires i <= |s|
    ensures var j := SkipWhitespace(s, i);
      FieldAt(s, i).Ended? <==>
        || (j < |s| && s[j] == 0x7D)
        || At(s, j, NULL_LITERAL)
        || (j < |s| && s[j] == 0x7B && AtByteBehind(s, j + 1, 0x7D))
        || (j < |s| && s[j] == 0x2C && At(s, SkipWhitespace(s, j + 1), NULL_LITERAL)
            && AtByteBehind(s, SkipWhitespace(s, j + 1) + 4, 0x3A))
  {
    hide Decode, RawEnd, At;
    var j := SkipWhitespace(s, i);
    NullHere(s, j);
    if j < |s| {
      NullHere(s, SkipWhitespace(s, j + 1));
      RawEndIffDecode(s, SkipWhitespace(s, j + 1) + 1);
    }
  }

  /** `ReadArray` finds an element behind an opening bracket and behind a comma, whatever stands there. */
  lemma ElementIs(s: seq<byte>, i: nat)
    requires i <= |s|
    ensures var j := SkipWhitespace(s, i);
      && (ElementAt(s, i).Found? <==>
            && j < |s|
            && (s[j] == 0x2C
                || (s[j] == 0x5B && SkipWhitespace(s, j + 1) < |s| && !AtByteBehind(s, j + 1, 0x5D))))
      && (ElementAt(s, i).Ended? <==>
            || (j < |s| && (s[j] == 0x5D || (s[j] == 0x5B && AtByteBehind(s, j + 1, 0x5D))))
            || At(s, j, NULL_LITERAL))
  {
    hide At;
    NullHere(s, SkipWhitespace(s, i));
  }
}

/** Unless names are case-sensitive, a field is found under its name in any mix of cases. */
module CaseTheorems {
  import opened Bytes
  import opened StringMachines
  import opened FieldHash
  import opened StructMachines
  import opened StructDecoder
  import opened StructTheorems

  /** One byte, or the upper-case and the lower-case form of one letter. */
  predicate IsSameLetter(c: byte, d: byte) {
    || c == d
    || exists k :: 0 <= k < 26 && (c == UPPER_LETTERS[k] || c == LOWER_LETTERS[k]) &&
                                  (d == UPPER_LETTERS[k] || d == LOWER_LETTERS[k])
  }

  /** One text up to the case of its letters. */
  predicate AreSameLetters(a: seq<byte>, b: seq<byte>) {
    |a| == |b| && forall k :: 0 <= k < |a| ==> IsSameLetter(a[k], b[k])
  }

  lemma SameLower(c: byte, d: byte)
    requires IsSameLetter(c, d)
    ensures LowerChar(c, false) == LowerChar(d, false)
  {
    if c != d {
      var k: nat :| k < 26 && (c == UPPER_LETTERS[k] || c == LOWER_LETTERS[k]) &&
                              (d == UPPER_LETTERS[k] || d == LOWER_LETTERS[k]);
      LetterIs(k);
    }
  }

  lemma SameAsciiLower(a: seq<byte>, b: seq<byte>)
    requires AreSameLetters(a, b)
    ensures AsciiLower(a) == AsciiLower(b)
  {
    hide LowerChar, IsSameLetter, AsciiLower;
    forall k | 0 <= k < |a| ensures AsciiLower(a)[k] == AsciiLower(b)[k] {
      AsciiLowerAt(a, k);
      AsciiLowerAt(b, k);
      SameLower(a[k], b[k]);
    }
  }

  /** A quoted name in front of position `i` that decodes to ASCII. */
  predicate HasName(s: seq<byte>, i: nat, name: seq<byte>)
    requires i <= |s|
  {
    var j := SkipWhitespace(s, i);
    j < |s| && s[j] == QUOTE && Decode(s, j + 1).Ok? && Decode(s, j + 1).value == name && IsAscii(name)
  }

  lemma {:induction false} EscapedPartIsAscii(s: seq<byte>, i: nat)
    requires Decode(s, i).Ok? && IsAscii(Decode(s, i).value)
    ensures IsAscii(EscapedPart(s, i))
    decreases |s| - i
  {
    hide Escape, IsAscii;
    if s[i] == QUOTE {
      NothingIsAscii();
    } else if s[i] != BACKSLASH {
      IsAsciiFirst(s[i], Decode(s, i + 1).value);
      EscapedPartIsAscii(s, i + 1);
    }
  }

  /** What is hashed of such a name. */
  lemma NameHashed(s: seq<byte>, i: nat, name: seq<byte>)
    requires i <= |s| && HasName(s, i, name)
    ensures FieldHashAt(s, i, false) ==
            HashColon(s, Decode(s, SkipWhitespace(s, i) + 1).next, HashBytes(HASH_SEED, AsciiLower(name)))
  {
    hide Decode, HashScan, HashColon, HashBytes, AsciiLower, IsAscii, EscapedPart;
    var k := SkipWhitespace(s, i) + 1;
    EscapedPartIsAscii(s, k);
    ScanIsBytes(s, k, HASH_SEED, false);
    LoweredIs(name, false);
  }

  /** Two names that differ in case at most are hashed alike as they are read, with or without escapes. */
  lemma CaseIsFolded(s: seq<byte>, i: nat, a: seq<byte>, s': seq<byte>, i': nat, b: seq<byte>)
    requires i <= |s| && HasName(s, i, a) && i' <= |s'| && HasName(s', i', b) && AreSameLetters(a, b)
    requires FieldHashAt(s, i, false).Hashed? && FieldHashAt(s', i', false).Hashed?
    ensures FieldHashAt(s, i, false).hash == FieldHashAt(s', i', false).hash
  {
    hide HasName, AreSameLetters, FieldHashAt, HashBytes, AsciiLower;
    NameHashed(s, i, a);
    NameHashed(s', i', b);
    SameAsciiLower(a, b);
  }

  /** A table finds a field by its name in any mix of cases. */
  lemma TableFindsAnyCase(s: seq<byte>, i: nat, key: seq<byte>, name: seq<byte>, entries: seq<(bv64, nat)>,
                          order: seq<seq<byte>>, fields: map<seq<byte>, nat>, cfg: FieldConfig)
    requires IsOrder(order, fields) && AreUsable(order, |order|, cfg) && IsTable(entries, |order|, order, fields, cfg)
    requires IsToLower(cfg.toLower) && !cfg.caseSensitive
    requires i <= |s| && HasName(s, i, key) && name in fields && IsAscii(name) && AreSameLetters(key, name)
    requires ColonBehind(s, Decode(s, SkipWhitespace(s, i) + 1).next)
    ensures var e := SkipWhitespace(s, Decode(s, SkipWhitespace(s, i) + 1).next);
      TableKeyAt(s, i, entries, cfg) == KeyOf(Some(fields[name]), e + 1)
  {
    hide HasName, AreSameLetters, FieldHashAt, HashBytes, AsciiLower, IsTable, AreUsable, IsToLower, IsAscii, Decode,
         FindHash;
    NameHashed(s, i, key);
    SameAsciiLower(key, name);
    ToLowerIs(cfg.toLower, name);
    var k :| 0 <= k < |order| && order[k] == name;
    EveryFieldIsFound(entries, order, fields, cfg, k);
  }

  /** What `strings.ToLower` makes of two names that differ in case at most. */
  lemma SameToLower(a: seq<byte>, b: seq<byte>, cfg: FieldConfig)
    requires IsToLower(cfg.toLower) && AreSameLetters(a, b) && IsAscii(a) && IsAscii(b)
    ensures cfg.toLower(a) == cfg.toLower(b)
  {
    hide AreSameLetters, AsciiLower, IsToLower, IsAscii;
    SameAsciiLower(a, b);
    ToLowerIs(cfg.toLower, a);
    ToLowerIs(cfg.toLower, b);
  }

  /** No other field has the lower-case form of this one. */
  predicate IsOnlyName(name: seq<byte>, bindings: map<seq<byte>, nat>, cfg: FieldConfig) {
    forall other :: other in bindings && cfg.toLower(other) == cfg.toLower(name) ==> other == name
  }

  /**
   * The general decoder finds every field under its own name; and, unless names are case-sensitive, under any mix of
   * cases some field whose name differs in case at most, so that field if there is no other.
   */
  lemma GeneralFindsAnyCase(key: seq<byte>, name: seq<byte>, bindings: map<seq<byte>, nat>,
                            fields: map<seq<byte>, nat>, cfg: FieldConfig)
    requires Extends(fields, bindings, cfg) && IsClosed(fields, cfg) && IsToLower(cfg.toLower)
    requires name in bindings && IsAscii(key) && IsAscii(name) && AreSameLetters(key, name)
    ensures FindName(fields, name, cfg) == Some(bindings[name])
    ensures !cfg.caseSensitive ==>
              && FindName(fields, key, cfg).Some?
              && (IsOnlyName(name, bindings, cfg) ==> FindName(fields, key, cfg) == Some(bindings[name]))
  {
    hide AreSameLetters, IsLowerOf, IsAscii;
    SameToLower(key, name, cfg);
    var lower := cfg.toLower(name);
    assert cfg.toLower(lower) == lower;
    if !cfg.caseSensitive && IsOnlyName(name, bindings, cfg) {
      var found := if key in fields then key else lower;
      if found !in bindings {
        var k :| k in bindings && found == cfg.toLower(k) && fields[found] == bindings[k];
        assert cfg.toLower(cfg.toLower(k)) == cfg.toLower(k);
      }
    }
  }
}

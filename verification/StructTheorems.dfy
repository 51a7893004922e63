/** Dispatch by hash decodes the same fields, in the same order, as the general decoder. */
module StructTheorems {
  import opened Bytes
  import opened StringMachines
  import opened FloatMachines
  import opened IterCore
  import opened ValueMachines
  import opened Grammar
  import opened DocTheorems
  import opened TreeTheorems
  import opened LookupMachines
  import opened FieldHash
  import opened StructMachines
  import opened StructDecoder

  // ---------- The map of names ----------

  /** Unless names are case-sensitive, the lower-case form of every name is a name too. */
  predicate IsClosed(fields: map<seq<byte>, nat>, cfg: FieldConfig) {
    !cfg.caseSensitive ==> forall name :: name in fields ==> cfg.toLower(name) in fields
  }

  /** Every binding keeps its name, and every other name is the lower-case form of a binding with its field. */
  predicate Extends(fields: map<seq<byte>, nat>, bindings: map<seq<byte>, nat>, cfg: FieldConfig) {
    && (forall name :: name in bindings ==> name in fields && fields[name] == bindings[name])
    && (forall name :: name in fields && name !in bindings ==>
          exists k :: k in bindings && name == cfg.toLower(k) && fields[name] == bindings[k])
  }

  /** The loop of `decoderOfStruct` that adds lower-case names; `order` is the order of the `range`. */
  method CloseFields(bindings: map<seq<byte>, nat>, order: seq<seq<byte>>, cfg: FieldConfig)
    returns (fields: map<seq<byte>, nat>)
    requires IsOrder(order, bindings) && IsToLower(cfg.toLower)
    ensures IsClosed(fields, cfg) && Extends(fields, bindings, cfg)
  {
    hide Extends, IsLowerOf;
    fields := bindings;
    ItselfExtends(bindings, cfg);
    if !cfg.caseSensitive {
      for i := 0 to |order|
        invariant Extends(fields, bindings, cfg)
        invariant forall k :: 0 <= k < i ==> cfg.toLower(order[k]) in fields
      {
        var k := order[i];
        if cfg.toLower(k) !in fields {
          LowerExtends(fields, bindings, cfg, k);
          fields := fields[cfg.toLower(k) := bindings[k]];
        }
      }
      AllLowered(fields, bindings, order, cfg);
    }
  }

  lemma ItselfExtends(bindings: map<seq<byte>, nat>, cfg: FieldConfig)
    ensures Extends(bindings, bindings, cfg)
  {
  }

  lemma LowerExtends(fields: map<seq<byte>, nat>, bindings: map<seq<byte>, nat>, cfg: FieldConfig, k: seq<byte>)
    requires Extends(fields, bindings, cfg) && k in bindings && cfg.toLower(k) !in fields
    ensures Extends(fields[cfg.toLower(k) := bindings[k]], bindings, cfg)
  {
  }

  lemma AllLowered(fields: map<seq<byte>, nat>, bindings: map<seq<byte>, nat>, order: seq<seq<byte>>, cfg: FieldConfig)
    requires IsOrder(order, bindings) && IsToLower(cfg.toLower) && Extends(fields, bindings, cfg)
    requires forall k :: 0 <= k < |order| ==> cfg.toLower(order[k]) in fields
    ensures forall name :: name in fields ==> cfg.toLower(name) in fields
  {
    forall name | name in fields ensures cfg.toLower(name) in fields {
      if name in bindings {
        var i :| 0 <= i < |order| && order[i] == name;
      } else {
        var k :| k in bindings && name == cfg.toLower(k) && fields[name] == bindings[k];
        assert cfg.toLower(cfg.toLower(k)) == cfg.toLower(k);
      }
    }
  }

  // ---------- The table ----------

  lemma {:induction false} FindHashAt(entries: seq<(bv64, nat)>, hash: bv64, k: nat)
    requires k < |entries| && entries[k].0 == hash
    requires forall i :: 0 <= i < k ==> entries[i].0 != hash
    ensures FindHash(entries, hash) == Some(entries[k].1)
    decreases k
  {
    if k > 0 {
      FindHashAt(entries[1..], hash, k - 1);
    }
  }

  lemma {:induction false} FindHashNone(entries: seq<(bv64, nat)>, hash: bv64)
    requires forall i :: 0 <= i < |entries| ==> entries[i].0 != hash
    ensures FindHash(entries, hash) == None
    decreases |entries|
  {
    if entries != [] {
      FindHashNone(entries[1..], hash);
    }
  }

  /** Every entry is found by its hash: the table is one to one between hashes and fields. */
  lemma EveryFieldIsFound(
      entries: seq<(bv64, nat)>, order: seq<seq<byte>>, fields: map<seq<byte>, nat>, cfg: FieldConfig, k: nat)
    requires IsOrder(order, fields) && AreUsable(order, |order|, cfg) && IsTable(entries, |order|, order, fields, cfg)
    requires k < |order|
    ensures FindHash(entries, CalcHashOf(order[k], cfg)) == Some(fields[order[k]])
    ensures FindHash(entries, 0) == None
  {
    hide CalcHashOf;
    FindHashAt(entries, CalcHashOf(order[k], cfg), k);
    FindHashNone(entries, 0);
  }

  /** Two names that are compared as different but have one hash. */
  predicate SameHash(name: seq<byte>, key: seq<byte>, cfg: FieldConfig) {
    CalcHashOf(name, cfg) == CalcHashOf(key, cfg) && Folded(name, cfg) != Folded(key, cfg)
  }

  /** A name whose hash is that of a field, although it is no name of that field. */
  predicate Collides(key: seq<byte>, fields: map<seq<byte>, nat>, cfg: FieldConfig) {
    exists name :: name in fields && SameHash(name, key, cfg)
  }

  /** In a table the names are their own lower-case forms. */
  lemma TableNamesAreLower(order: seq<seq<byte>>, fields: map<seq<byte>, nat>, cfg: FieldConfig, name: seq<byte>)
    requires IsOrder(order, fields) && AreUsable(order, |order|, cfg)
    requires IsClosed(fields, cfg) && IsToLower(cfg.toLower) && !cfg.caseSensitive && name in fields
    ensures cfg.toLower(name) == name
  {
    hide HashBytes;
    var lower := cfg.toLower(name);
    assert cfg.toLower(lower) == lower;
    assert CalcHashOf(lower, cfg) == CalcHashOf(name, cfg);
    var i :| 0 <= i < |order| && order[i] == name;
    var j :| 0 <= j < |order| && order[j] == lower;
  }

  /** Absent a collision the hash selects the field that the general decoder's map selects. */
  lemma NoCollisionSelects(key: seq<byte>, entries: seq<(bv64, nat)>, order: seq<seq<byte>>,
                         fields: map<seq<byte>, nat>, cfg: FieldConfig)
    requires IsOrder(order, fields) && AreUsable(order, |order|, cfg) && IsTable(entries, |order|, order, fields, cfg)
    requires IsClosed(fields, cfg) && IsToLower(cfg.toLower) && !Collides(key, fields, cfg)
    ensures FindHash(entries, CalcHashOf(key, cfg)) == FindName(fields, key, cfg)
  {
    hide CalcHashOf, AreUsable, IsTable;
    var folded := Folded(key, cfg);
    FoldedTwice(key, cfg);
    if !cfg.caseSensitive && key in fields {
      TableNamesAreLower(order, fields, cfg, key);
    }
    if folded in fields {
      var k :| 0 <= k < |order| && order[k] == folded;
      EveryFieldIsFound(entries, order, fields, cfg, k);
    } else {
      NoFieldOfHash(key, entries, order, fields, cfg);
    }
  }

  lemma FoldedTwice(key: seq<byte>, cfg: FieldConfig)
    requires IsToLower(cfg.toLower)
    ensures CalcHashOf(Folded(key, cfg), cfg) == CalcHashOf(key, cfg)
  {
    hide HashBytes;
  }

  lemma NoFieldOfHash(key: seq<byte>, entries: seq<(bv64, nat)>, order: seq<seq<byte>>,
                      fields: map<seq<byte>, nat>, cfg: FieldConfig)
    requires IsOrder(order, fields) && AreUsable(order, |order|, cfg) && IsTable(entries, |order|, order, fields, cfg)
    requires IsClosed(fields, cfg) && IsToLower(cfg.toLower) && !Collides(key, fields, cfg)
    requires Folded(key, cfg) !in fields
    ensures FindHash(entries, CalcHashOf(key, cfg)) == None
  {
    hide CalcHashOf;
    var hash := CalcHashOf(key, cfg);
    forall i | 0 <= i < |entries| ensures entries[i].0 != hash {
      if !cfg.caseSensitive {
        TableNamesAreLower(order, fields, cfg, order[i]);
      }
      OtherNameOtherHash(order[i], key, fields, cfg);
    }
    FindHashNone(entries, hash);
  }

  /** A collision makes the hash select a field, and the map none. */
  lemma CollisionMisleads(key: seq<byte>, entries: seq<(bv64, nat)>, order: seq<seq<byte>>,
                          fields: map<seq<byte>, nat>, cfg: FieldConfig)
    requires IsOrder(order, fields) && AreUsable(order, |order|, cfg) && IsTable(entries, |order|, order, fields, cfg)
    requires IsClosed(fields, cfg) && IsToLower(cfg.toLower) && Collides(key, fields, cfg)
    ensures FindHash(entries, CalcHashOf(key, cfg)).Some? && FindName(fields, key, cfg).None?
  {
    hide CalcHashOf, IsTable;
    var name :| name in fields && SameHash(name, key, cfg);
    var folded := Folded(key, cfg);
    FoldedTwice(key, cfg);
    if !cfg.caseSensitive {
      TableNamesAreLower(order, fields, cfg, name);
      if key in fields {
        TableNamesAreLower(order, fields, cfg, key);
      }
    }
    var k :| 0 <= k < |order| && order[k] == name;
    EveryFieldIsFound(entries, order, fields, cfg, k);
    OneNamePerHash(order, fields, cfg, k, folded);
  }

  lemma OneNamePerHash(
      order: seq<seq<byte>>, fields: map<seq<byte>, nat>, cfg: FieldConfig, k: nat, other: seq<byte>)
    requires IsOrder(order, fields) && AreUsable(order, |order|, cfg)
    requires k < |order| && order[k] != other && CalcHashOf(order[k], cfg) == CalcHashOf(other, cfg)
    ensures other !in fields
  {
    hide CalcHashOf;
  }

  /**
   * The hash of a decoded name selects the field that the general decoder's map selects, whatever the order of
   * the table, exactly when the name collides with no field.
   */
  lemma HashSelectsField(key: seq<byte>, entries: seq<(bv64, nat)>, order: seq<seq<byte>>,
                         fields: map<seq<byte>, nat>, cfg: FieldConfig)
    requires IsOrder(order, fields) && AreUsable(order, |order|, cfg) && IsTable(entries, |order|, order, fields, cfg)
    requires IsClosed(fields, cfg) && IsToLower(cfg.toLower)
    ensures FindHash(entries, CalcHashOf(key, cfg)) == FindName(fields, key, cfg) <==> !Collides(key, fields, cfg)
  {
    hide CalcHashOf, IsTable, AreUsable, IsOrder, IsClosed, IsToLower, Collides, FindHash, FindName;
    if Collides(key, fields, cfg) {
      CollisionMisleads(key, entries, order, fields, cfg);
    } else {
      NoCollisionSelects(key, entries, order, fields, cfg);
    }
  }

  lemma OtherNameOtherHash(name: seq<byte>, key: seq<byte>, fields: map<seq<byte>, nat>, cfg: FieldConfig)
    requires name in fields && Folded(name, cfg) == name && Folded(key, cfg) !in fields && !Collides(key, fields, cfg)
    ensures CalcHashOf(name, cfg) != CalcHashOf(key, cfg)
  {
    hide CalcHashOf;
  }

  // ---------- Two names of one hash ----------

  /** `dwc5a7z6whivl` and `bwqxz4w6j2pse` */
  const SOME_NAME: seq<byte> := [0x64, 0x77, 0x63, 0x35, 0x61, 0x37, 0x7A, 0x36, 0x77, 0x68, 0x69, 0x76, 0x6C]
  const OTHER_NAME: seq<byte> := [0x62, 0x77, 0x71, 0x78, 0x7A, 0x34, 0x77, 0x36, 0x6A, 0x32, 0x70, 0x73, 0x65]

  lemma HashSuffix(t: seq<byte>, k: nat, c: byte, h: bv64, h': bv64)
    requires k < |t| && t[k] == c && HashStep(h, c) == h'
    ensures HashBytes(h, t[k..]) == HashBytes(h', t[k + 1..])
  {
    hide HashStep;
    assert t[k..][1..] == t[k + 1..];
  }

  lemma SomeNameSteps()
    ensures HashStep(0x811c9dc5, 0x64) == 0x811d68e10c2473
    ensures HashStep(0x811d68e10c2473, 0x77) == 0x3422583e4a1cb24c
    ensures HashStep(0x3422583e4a1cb24c, 0x63) == 0x505b06c0da2c7ffd
    ensures HashStep(0x505b06c0da2c7ffd, 0x35) == 0x4025ce173c0d27d8
    ensures HashStep(0x4025ce173c0d27d8, 0x61) == 0x12bf7bbb41b5883b
    ensures HashStep(0x12bf7bbb41b5883b, 0x37) == 0x3eb17d507cc52ae4
    ensures HashStep(0x3eb17d507cc52ae4, 0x7A) == 0x1e50adf086216ba
    ensures HashStep(0x1e50adf086216ba, 0x36) == 0xda987f30be697e64
    ensures HashStep(0xda987f30be697e64, 0x77) == 0x4ecea339d31177e9
    ensures HashStep(0x4ecea339d31177e9, 0x68) == 0x491e057ec57f2013
    ensures HashStep(0x491e057ec57f2013, 0x69) == 0x990825b16120200e
    ensures HashStep(0x990825b16120200e, 0x76) == 0x9934765c5d931ce8
    ensures HashStep(0x9934765c5d931ce8, 0x6C) == 0x89f3e683d295e3cc
  {
  }

  lemma SomeNameHash(t: seq<byte>)
    requires |t| == 13 && t[0] == 0x64 && t[1] == 0x77 && t[2] == 0x63
    requires t[3] == 0x35 && t[4] == 0x61 && t[5] == 0x37 && t[6] == 0x7A
    requires t[7] == 0x36 && t[8] == 0x77 && t[9] == 0x68 && t[10] == 0x69 && t[11] == 0x76 && t[12] == 0x6C
    ensures HashBytes(HASH_SEED, t) == 0x89f3e683d295e3cc
  {
    hide HashBytes, HashStep;
    SomeNameSteps();
    HashSuffix(t, 0, 0x64, 0x811c9dc5, 0x811d68e10c2473);
    HashSuffix(t, 1, 0x77, 0x811d68e10c2473, 0x3422583e4a1cb24c);
    HashSuffix(t, 2, 0x63, 0x3422583e4a1cb24c, 0x505b06c0da2c7ffd);
    HashSuffix(t, 3, 0x35, 0x505b06c0da2c7ffd, 0x4025ce173c0d27d8);
    HashSuffix(t, 4, 0x61, 0x4025ce173c0d27d8, 0x12bf7bbb41b5883b);
    HashSuffix(t, 5, 0x37, 0x12bf7bbb41b5883b, 0x3eb17d507cc52ae4);
    HashSuffix(t, 6, 0x7A, 0x3eb17d507cc52ae4, 0x1e50adf086216ba);
    HashSuffix(t, 7, 0x36, 0x1e50adf086216ba, 0xda987f30be697e64);
    HashSuffix(t, 8, 0x77, 0xda987f30be697e64, 0x4ecea339d31177e9);
    HashSuffix(t, 9, 0x68, 0x4ecea339d31177e9, 0x491e057ec57f2013);
    HashSuffix(t, 10, 0x69, 0x491e057ec57f2013, 0x990825b16120200e);
    HashSuffix(t, 11, 0x76, 0x990825b16120200e, 0x9934765c5d931ce8);
    HashSuffix(t, 12, 0x6C, 0x9934765c5d931ce8, 0x89f3e683d295e3cc);
    assert t[0..] == t && t[13..] == [];
    NothingHashed(0x89f3e683d295e3cc);
  }

  lemma OtherNameSteps()
    ensures HashStep(0x811c9dc5, 0x62) == 0x811d68e70c2de5
    ensures HashStep(0x811d68e70c2de5, 0x77) == 0x342858514a2bbcd6
    ensures HashStep(0x342858514a2bbcd6, 0x71) == 0x6ccd33b469d9fae5
    ensures HashStep(0x6ccd33b469d9fae5, 0x78) == 0xfb723efd3f258527
    ensures HashStep(0xfb723efd3f258527, 0x7A) == 0xd2184e2fc510f167
    ensures HashStep(0xd2184e2fc510f167, 0x34) == 0xec0826248cabe5a9
    ensures HashStep(0xec0826248cabe5a9, 0x77) == 0xb560b76f509adc7a
    ensures HashStep(0xb560b76f509adc7a, 0x36) == 0xf6915f182fc8cba4
    ensures HashStep(0xf6915f182fc8cba4, 0x6A) == 0x3f087bdf0718d54a
    ensures HashStep(0x3f087bdf0718d54a, 0x32) == 0x196218eda4180be8
    ensures HashStep(0x196218eda4180be8, 0x70) == 0xe3115624e9da4048
    ensures HashStep(0xe3115624e9da4048, 0x73) == 0x9934765c5d931ce1
    ensures HashStep(0x9934765c5d931ce1, 0x65) == 0x89f3e683d295e3cc
  {
  }

  lemma OtherNameHash(t: seq<byte>)
    requires |t| == 13 && t[0] == 0x62 && t[1] == 0x77 && t[2] == 0x71
    requires t[3] == 0x78 && t[4] == 0x7A && t[5] == 0x34 && t[6] == 0x77
    requires t[7] == 0x36 && t[8] == 0x6A && t[9] == 0x32 && t[10] == 0x70 && t[11] == 0x73 && t[12] == 0x65
    ensures HashBytes(HASH_SEED, t) == 0x89f3e683d295e3cc
  {
    hide HashBytes, HashStep;
    OtherNameSteps();
    HashSuffix(t, 0, 0x62, 0x811c9dc5, 0x811d68e70c2de5);
    HashSuffix(t, 1, 0x77, 0x811d68e70c2de5, 0x342858514a2bbcd6);
    HashSuffix(t, 2, 0x71, 0x342858514a2bbcd6, 0x6ccd33b469d9fae5);
    HashSuffix(t, 3, 0x78, 0x6ccd33b469d9fae5, 0xfb723efd3f258527);
    HashSuffix(t, 4, 0x7A, 0xfb723efd3f258527, 0xd2184e2fc510f167);
    HashSuffix(t, 5, 0x34, 0xd2184e2fc510f167, 0xec0826248cabe5a9);
    HashSuffix(t, 6, 0x77, 0xec0826248cabe5a9, 0xb560b76f509adc7a);
    HashSuffix(t, 7, 0x36, 0xb560b76f509adc7a, 0xf6915f182fc8cba4);
    HashSuffix(t, 8, 0x6A, 0xf6915f182fc8cba4, 0x3f087bdf0718d54a);
    HashSuffix(t, 9, 0x32, 0x3f087bdf0718d54a, 0x196218eda4180be8);
    HashSuffix(t, 10, 0x70, 0x196218eda4180be8, 0xe3115624e9da4048);
    HashSuffix(t, 11, 0x73, 0xe3115624e9da4048, 0x9934765c5d931ce1);
    HashSuffix(t, 12, 0x65, 0x9934765c5d931ce1, 0x89f3e683d295e3cc);
    assert t[0..] == t && t[13..] == [];
    NothingHashed(0x89f3e683d295e3cc);
  }

  lemma NothingHashed(hash: bv64)
    ensures HashBytes(hash, []) == hash
  {
  }

  /** Both names are ASCII in lower case, so they collide whether names are case-sensitive or not. */
  lemma CollidingNames(cfg: FieldConfig)
    requires IsToLower(cfg.toLower)
    ensures Collides(OTHER_NAME, map[SOME_NAME := 0], cfg)
    ensures SOME_NAME != OTHER_NAME && Folded(OTHER_NAME, cfg) == OTHER_NAME && Folded(SOME_NAME, cfg) == SOME_NAME
  {
    hide HashBytes, AsciiLower, IsToLower, CalcHashOf;
    LowerStays(SOME_NAME);
    LowerStays(OTHER_NAME);
    ToLowerIs(cfg.toLower, SOME_NAME);
    ToLowerIs(cfg.toLower, OTHER_NAME);
    FoldedIs(SOME_NAME, cfg);
    FoldedIs(OTHER_NAME, cfg);
    SomeNameHash(SOME_NAME);
    OtherNameHash(OTHER_NAME);
    assert SOME_NAME[0] != OTHER_NAME[0];
    assert SOME_NAME in map[SOME_NAME := 0] && SameHash(SOME_NAME, OTHER_NAME, cfg);
  }

  lemma FoldedIs(name: seq<byte>, cfg: FieldConfig)
    requires cfg.toLower(name) == name
    ensures Folded(name, cfg) == name && CalcHashOf(name, cfg) == HashBytes(HASH_SEED, name)
  {
    hide HashBytes;
  }

  lemma {:induction false} LowerStays(t: seq<byte>)
    requires forall k :: 0 <= k < |t| ==> !(0x41 <= t[k] <= 0x5A)
    ensures AsciiLower(t) == t
    decreases |t|
  {
    if t != [] {
      LowerStays(t[1..]);
    }
  }

  // ---------- When a hash that was read selects the field ----------

  /**
   * The field that the map finds under `key`, if any, is that of a name with this hash; and if the map finds none,
   * no name has it.
   */
  predicate SelectsAlike(key: seq<byte>, hash: bv64, fields: map<seq<byte>, nat>, cfg: FieldConfig) {
    var folded := Folded(key, cfg);
    if folded in fields
    then exists name :: name in fields && CalcHashOf(name, cfg) == hash && fields[name] == fields[folded]
    else forall name :: name in fields ==> CalcHashOf(name, cfg) != hash
  }

  /** The map finds a name by its lower-case form, unless names are case-sensitive. */
  lemma FindNameIs(key: seq<byte>, order: seq<seq<byte>>, fields: map<seq<byte>, nat>, cfg: FieldConfig)
    requires IsOrder(order, fields) && AreUsable(order, |order|, cfg)
    requires IsClosed(fields, cfg) && IsToLower(cfg.toLower)
    ensures FindName(fields, key, cfg) ==
            if Folded(key, cfg) in fields then Some(fields[Folded(key, cfg)]) else None
  {
    hide AreUsable;
    if !cfg.caseSensitive && key in fields {
      TableNamesAreLower(order, fields, cfg, key);
    }
  }

  /** What the table finds by a hash. */
  lemma FindHashIs(hash: bv64, entries: seq<(bv64, nat)>, order: seq<seq<byte>>, fields: map<seq<byte>, nat>,
                   cfg: FieldConfig)
    requires IsOrder(order, fields) && AreUsable(order, |order|, cfg) && IsTable(entries, |order|, order, fields, cfg)
    ensures FindHash(entries, hash).None? ==> forall name :: name in fields ==> CalcHashOf(name, cfg) != hash
    ensures forall name :: name in fields && CalcHashOf(name, cfg) == hash ==>
              FindHash(entries, hash) == Some(fields[name])
    ensures FindHash(entries, hash).Some? ==>
              exists name :: name in fields && CalcHashOf(name, cfg) == hash
                             && FindHash(entries, hash).value == fields[name]
  {
    hide CalcHashOf;
    forall name | name in fields && CalcHashOf(name, cfg) == hash
      ensures FindHash(entries, hash) == Some(fields[name])
    {
      var k :| 0 <= k < |order| && order[k] == name;
      EveryFieldIsFound(entries, order, fields, cfg, k);
    }
    if forall name :: name in fields ==> CalcHashOf(name, cfg) != hash {
      FindHashNone(entries, hash);
    }
  }

  /** A hash selects the field that the map selects under a name, exactly under that condition. */
  lemma SelectsAlikeIff(key: seq<byte>, hash: bv64, entries: seq<(bv64, nat)>, order: seq<seq<byte>>,
                        fields: map<seq<byte>, nat>, cfg: FieldConfig)
    requires IsOrder(order, fields) && AreUsable(order, |order|, cfg) && IsTable(entries, |order|, order, fields, cfg)
    requires IsClosed(fields, cfg) && IsToLower(cfg.toLower)
    ensures FindHash(entries, hash) == FindName(fields, key, cfg) <==> SelectsAlike(key, hash, fields, cfg)
  {
    hide CalcHashOf, AreUsable, IsTable, IsOrder, IsClosed, IsToLower, FindHash, FindName, Folded;
    FindNameIs(key, order, fields, cfg);
    FindHashIs(hash, entries, order, fields, cfg);
  }

  // ---------- Names in the input ----------

  predicate ColonBehind(s: seq<byte>, e: nat)
    requires e <= |s|
  {
    SkipWhitespace(s, e) < |s| && s[SkipWhitespace(s, e)] == COLON
  }

  /** The name the general decoder looks up: decoded, or as it stands in the input if names must be simple. */
  function LookedUp(body: seq<byte>, cfg: FieldConfig): seq<byte> {
    if cfg.simpleNames then body else StringOf(body)
  }

  /** The hash that is read for a name whose first byte is at `k`. */
  function HashRead(s: seq<byte>, k: nat, cfg: FieldConfig): bv64
    requires k <= |s|
  {
    ScanIsChars(s, k, HASH_SEED, cfg.caseSensitive);
    HashChars(HASH_SEED, ReadChars(s, k, cfg.caseSensitive))
  }

  /**
   * Where both kinds of decoder make the same of what stands in front of position `i`. Both read a name and a
   * colon, and select one field; or both report an error. They differ on a null with a colon behind it, which only
   * the general decoder takes for a name; on a string with a control character before its first escape, which
   * only the tables take; and on a name whose hash as it is read selects another field than the name.
   */
  predicate KeysAgree(s: seq<byte>, i: nat, fields: map<seq<byte>, nat>, cfg: FieldConfig)
    requires i <= |s|
  {
    var j := SkipWhitespace(s, i);
    if j < |s| && s[j] == QUOTE then
      match Decode(s, PlainStop(s, j + 1))
      case Bad => true
      case Ok(_, e) =>
        ColonBehind(s, e) ==>
          && Decode(s, j + 1).Ok? && j + 1 < e
          && SelectsAlike(if cfg.simpleNames then s[j + 1..e - 1] else Decode(s, j + 1).value,
                          HashRead(s, j + 1, cfg), fields, cfg)
    else j + 4 <= |s| && s[j] == LOWER_N && At(s, j + 1, ULL) ==> !ColonBehind(s, j + 4)
  }

  /** A quoted name, as the general decoder reads it. */
  lemma GeneralAtQuote(s: seq<byte>, i: nat, fields: map<seq<byte>, nat>, cfg: FieldConfig)
    requires i <= |s| && SkipWhitespace(s, i) < |s| && s[SkipWhitespace(s, i)] == QUOTE && !cfg.disallowUnknown
    ensures var j := SkipWhitespace(s, i);
      GeneralKeyAt(s, i, fields, cfg) ==
      match Decode(s, j + 1)
      case Bad => BadKey
      case Ok(v, e) =>
        if ColonBehind(s, e)
        then KeyOf(FindName(fields, if cfg.simpleNames then s[j + 1..e - 1] else v, cfg), SkipWhitespace(s, e) + 1)
        else BadKey
  {
    hide Decode, RawEnd, FindName;
    RawEndIffDecode(s, SkipWhitespace(s, i) + 1);
  }

  /** The same in the other decoders. */
  lemma TableAtQuote(s: seq<byte>, i: nat, entries: seq<(bv64, nat)>, cfg: FieldConfig)
    requires i <= |s| && SkipWhitespace(s, i) < |s| && s[SkipWhitespace(s, i)] == QUOTE
    ensures var j := SkipWhitespace(s, i);
      TableKeyAt(s, i, entries, cfg) ==
      match Decode(s, PlainStop(s, j + 1))
      case Bad => BadKey
      case Ok(_, e) =>
        if ColonBehind(s, e)
        then KeyOf(FindHash(entries, HashRead(s, j + 1, cfg)), SkipWhitespace(s, e) + 1)
        else BadKey
  {
    hide Decode, FindHash, HashScan, HashChars, PlainStop, ReadChars;
    ScanIsChars(s, SkipWhitespace(s, i) + 1, HASH_SEED, cfg.caseSensitive);
  }

  /** What is no quoted name. */
  lemma NoQuote(s: seq<byte>, i: nat, fields: map<seq<byte>, nat>, entries: seq<(bv64, nat)>, cfg: FieldConfig)
    requires i <= |s| && !cfg.disallowUnknown
    requires SkipWhitespace(s, i) < |s| ==> s[SkipWhitespace(s, i)] != QUOTE
    ensures TableKeyAt(s, i, entries, cfg) == BadKey
    ensures var j := SkipWhitespace(s, i);
      GeneralKeyAt(s, i, fields, cfg) ==
      if j + 4 <= |s| && s[j] == LOWER_N && At(s, j + 1, ULL) && ColonBehind(s, j + 4)
      then KeyOf(FindName(fields, [], cfg), SkipWhitespace(s, j + 4) + 1)
      else BadKey
  {
    hide Decode, RawEnd, FindName;
  }

  /** That, for a quoted name that can be decoded. */
  lemma QuotedAgreeIff(s: seq<byte>, i: nat, entries: seq<(bv64, nat)>, order: seq<seq<byte>>,
                       fields: map<seq<byte>, nat>, cfg: FieldConfig)
    requires IsOrder(order, fields) && AreUsable(order, |order|, cfg) && IsTable(entries, |order|, order, fields, cfg)
    requires IsClosed(fields, cfg) && IsToLower(cfg.toLower) && i <= |s| && !cfg.disallowUnknown
    requires SkipWhitespace(s, i) < |s| && s[SkipWhitespace(s, i)] == QUOTE && Decode(s, SkipWhitespace(s, i) + 1).Ok?
    ensures GeneralKeyAt(s, i, fields, cfg) == TableKeyAt(s, i, entries, cfg) <==> KeysAgree(s, i, fields, cfg)
  {
    hide GeneralKeyAt, TableKeyAt, AreUsable, IsTable, IsOrder, IsClosed, IsToLower, FindHash, FindName, SelectsAlike,
         HashRead, Decode, PlainStop, ColonBehind, SkipWhitespace;
    GeneralAtQuote(s, i, fields, cfg);
    TableAtQuote(s, i, entries, cfg);
    var k := SkipWhitespace(s, i) + 1;
    DecodeFromStop(s, k);
    var d := Decode(s, k);
    SelectsAlikeIff(if cfg.simpleNames then s[k..d.next - 1] else d.value, HashRead(s, k, cfg), entries, order, fields,
                    cfg);
  }

  /** Both kinds of decoder make the same of a name in the input, exactly under that condition. */
  lemma KeysAgreeIff(s: seq<byte>, i: nat, entries: seq<(bv64, nat)>, order: seq<seq<byte>>,
                     fields: map<seq<byte>, nat>, cfg: FieldConfig)
    requires IsOrder(order, fields) && AreUsable(order, |order|, cfg) && IsTable(entries, |order|, order, fields, cfg)
    requires IsClosed(fields, cfg) && IsToLower(cfg.toLower) && i <= |s| && !cfg.disallowUnknown
    ensures GeneralKeyAt(s, i, fields, cfg) == TableKeyAt(s, i, entries, cfg) <==> KeysAgree(s, i, fields, cfg)
  {
    hide GeneralKeyAt, TableKeyAt, AreUsable, IsTable, IsOrder, IsClosed, IsToLower, FindHash, FindName, SelectsAlike,
         HashRead, Decode, At, PlainStop, ColonBehind, SkipWhitespace;
    var j := SkipWhitespace(s, i);
    if j < |s| && s[j] == QUOTE {
      if Decode(s, j + 1).Ok? {
        QuotedAgreeIff(s, i, entries, order, fields, cfg);
      } else {
        GeneralAtQuote(s, i, fields, cfg);
        TableAtQuote(s, i, entries, cfg);
      }
    } else {
      NoQuote(s, i, fields, entries, cfg);
    }
  }

  // ---------- Names on which they differ ----------

  /** `"\u0061":` */
  const ESCAPED_A: seq<byte> := [QUOTE, BACKSLASH, LOWER_U, ZERO, ZERO, 0x36, 0x31, QUOTE, COLON]

  /** `null:` */
  const NULL_KEY: seq<byte> := NULL_TEXT + [COLON]

  /** A quote, the byte 01, a quote and a colon */
  const CONTROL_NAME: seq<byte> := [QUOTE, 0x01, QUOTE, COLON]

  lemma EscapedADecodes()
    ensures Decode(ESCAPED_A, 1) == Ok([LOWER_A], 8) && EscapedPart(ESCAPED_A, 1) == [LOWER_A]
    ensures SkipWhitespace(ESCAPED_A, 0) == 0 && SkipWhitespace(ESCAPED_A, 8) == 8
  {
    var s, t: seq<byte> := ESCAPED_A, [LOWER_A];
    SkipNothing(s, 0);
    SkipNothing(s, 8);
    assert U4(s, 3) == 0x61 && Escape(s, 2) == Ok(t, 7);
    assert Decode(s, 7) == Ok([], 8) && t + [] == t;
  }

  /**
   * Names must be simple and `a` is the only field: for the name `\u0061` the general decoder finds no field, since
   * it does not decode the name, and the table finds `a`.
   */
  lemma SimpleNamesDiffer(cfg: FieldConfig)
    requires cfg.simpleNames && cfg.caseSensitive && !cfg.disallowUnknown
    ensures GeneralKeyAt(ESCAPED_A, 0, map[[LOWER_A] := 0], cfg) == KeyOf(None, 9)
    ensures TableKeyAt(ESCAPED_A, 0, [(CalcHashOf([LOWER_A], cfg), 0)], cfg) == KeyOf(Some(0), 9)
  {
    hide CalcHashOf, HashStep, Decode, EscapedPart, SkipWhitespace;
    var s, t: seq<byte> := ESCAPED_A, [LOWER_A];
    EscapedADecodes();
    ReadHashIsCalcHash(s, 0, cfg);
    GeneralAtQuote(s, 0, map[t := 0], cfg);
    assert s[1..7][0] == BACKSLASH;
  }

  /** A null for a name: the general decoder takes it for the empty name, the tables refuse it. */
  lemma NullNamesDiffer(fields: map<seq<byte>, nat>, entries: seq<(bv64, nat)>, cfg: FieldConfig)
    requires !cfg.disallowUnknown
    ensures GeneralKeyAt(NULL_KEY, 0, fields, cfg) == KeyOf(FindName(fields, [], cfg), 5)
    ensures TableKeyAt(NULL_KEY, 0, entries, cfg) == BadKey
  {
    hide FindName;
    SkipNothing(NULL_KEY, 0);
    SkipNothing(NULL_KEY, 4);
    assert NULL_KEY[1..4] == ULL;
    NoQuote(NULL_KEY, 0, fields, entries, cfg);
  }

  /** A control character in a name: the general decoder refuses it, the tables take it. */
  lemma ControlNamesDiffer(fields: map<seq<byte>, nat>, entries: seq<(bv64, nat)>, cfg: FieldConfig)
    requires !cfg.disallowUnknown
    ensures GeneralKeyAt(CONTROL_NAME, 0, fields, cfg) == BadKey
    ensures TableKeyAt(CONTROL_NAME, 0, entries, cfg).KeyOf?
  {
    hide FindName, FindHash, HashStep;
    var s := CONTROL_NAME;
    SkipNothing(s, 0);
    SkipNothing(s, 3);
    assert Decode(s, 1) == Bad && PlainStop(s, 1) == PlainStop(s, 2) == 2 && Decode(s, 2) == Ok([], 3);
    GeneralAtQuote(s, 0, fields, cfg);
    TableAtQuote(s, 0, entries, cfg);
  }

  // ---------- Names in a document ----------

  /** The name of a member that the general decoder looks up; a null stands for the empty name. */
  function LookedUpName(name: Name, cfg: FieldConfig): seq<byte> {
    if name.NullName? then [] else LookedUp(name.text, cfg)
  }

  function SlotOf(name: Name, fields: map<seq<byte>, nat>, cfg: FieldConfig): Option<nat> {
    FindName(fields, LookedUpName(name, cfg), cfg)
  }

  /** A name that both kinds of decoder treat alike, wherever it stands. */
  predicate IsAgreedKey(name: Name, fields: map<seq<byte>, nat>, cfg: FieldConfig) {
    name.Body? && SelectsAlike(LookedUp(name.text, cfg), HashRead(name.text + [QUOTE], 0, cfg), fields, cfg)
  }

  predicate AreAgreedKeys(members: Grammar.Members, fields: map<seq<byte>, nat>, cfg: FieldConfig) {
    IsAgreedKey(members.name, fields, cfg) && (members.Member? ==> AreAgreedKeys(members.rest, fields, cfg))
  }

  /** For a name hashed alike, without escapes if it must be simple, that is so exactly if it does not collide. */
  lemma AgreedIffNoCollision(body: seq<byte>, entries: seq<(bv64, nat)>, order: seq<seq<byte>>,
                             fields: map<seq<byte>, nat>, cfg: FieldConfig)
    requires IsOrder(order, fields) && AreUsable(order, |order|, cfg) && IsTable(entries, |order|, order, fields, cfg)
    requires IsClosed(fields, cfg) && IsToLower(cfg.toLower)
    requires IsStringBody(body) && IsHashedAlike(body, cfg) && (cfg.simpleNames ==> BACKSLASH !in body)
    ensures IsAgreedKey(Body(body), fields, cfg) <==> !Collides(StringOf(body), fields, cfg)
  {
    hide AreUsable, IsTable, IsOrder, IsClosed, IsToLower, FindHash, FindName, SelectsAlike, Collides, Decode,
         IsStringBody, RawEnd, HashChars, CalcHashOf, StringOf, IsAscii, AsciiLower, EscapedPart, HashRead;
    var t, key := body + [QUOTE], StringOf(body);
    BodyDecodes(body);
    HashReadIs(t, cfg);
    if cfg.simpleNames {
      SimpleIsText(body);
    }
    SelectsAlikeIff(key, CalcHashOf(key, cfg), entries, order, fields, cfg);
    HashSelectsField(key, entries, order, fields, cfg);
  }

  /** The hash read for a name hashed alike. */
  lemma HashReadIs(t: seq<byte>, cfg: FieldConfig)
    requires Decode(t, 0).Ok? && IsAscii(EscapedPart(t, 0))
    requires !cfg.caseSensitive ==> cfg.toLower(Decode(t, 0).value) == AsciiLower(Decode(t, 0).value)
    ensures HashRead(t, 0, cfg) == CalcHashOf(Decode(t, 0).value, cfg)
  {
    hide Decode, HashChars, HashBytes, HashStep;
    ReadCharsIff(t, 0, cfg.caseSensitive);
    BytesAreChars(HASH_SEED, Folded(Decode(t, 0).value, cfg));
  }

  lemma SimpleIsText(body: seq<byte>)
    requires IsStringBody(body) && BACKSLASH !in body
    ensures StringOf(body) == body
  {
    hide Decode, RawEnd;
    var t := body + [QUOTE];
    assert t[0..|t|] == t && t[0..|t| - 1] == body;
    DecodePlain(t, 0);
  }

  lemma BodyDecodes(body: seq<byte>)
    requires IsStringBody(body)
    ensures Decode(body + [QUOTE], 0) == Ok(StringOf(body), |body| + 1)
  {
    hide Decode, RawEnd;
    RawEndIffDecode(body + [QUOTE], 0);
  }

  /** A decoder that `createStructDecoder` may choose for these fields. */
  predicate Decodes(d: Decoder, order: seq<seq<byte>>, fields: map<seq<byte>, nat>, cfg: FieldConfig) {
    && IsOrder(order, fields)
    && match d
       case General(f) => f == fields
       case SkipObject => order == []
       case Table(entries) => AreUsable(order, |order|, cfg) && IsTable(entries, |order|, order, fields, cfg)
  }

  /** The hash read for a name is that of its text by itself. */
  lemma HashReadThere(body: seq<byte>, s: seq<byte>, k: nat, cfg: FieldConfig)
    requires IsStringBody(body) && At(s, k, Quoted(body))
    ensures k + 1 <= |s| && HashRead(s, k + 1, cfg) == HashRead(body + [QUOTE], 0, cfg)
  {
    hide At, Decode, RawEnd, IsStringBody, HashChars, HashStep;
    var t := body + [QUOTE];
    LiteralThere(s, k, QUOTE, t);
    BodyDecodes(body);
    assert t[0..|t|] == t;
    ReadCharsLocal(t, 0, s, k + 1, cfg.caseSensitive);
  }

  /** The text of a name in the input. */
  lemma NameTextThere(body: seq<byte>, s: seq<byte>, k: nat)
    requires IsStringBody(body) && At(s, k, Quoted(body))
    ensures k + |body| + 2 <= |s| && s[k + 1..k + 1 + |body|] == body
  {
    LiteralThere(s, k, QUOTE, body + [QUOTE]);
    AtConcat(s, k + 1, body, [QUOTE]);
  }

  lemma NameStands(members: Grammar.Members, s: seq<byte>, p: nat)
    requires AreShapedMembers(members) && members.name.Body? && At(s, p, MembersText(members))
    ensures IsStringBody(members.name.text) && At(s, p + |members.before|, Quoted(members.name.text))
  {
    hide At, AfterName, IsStringBody;
    AtConcat(s, p, members.before, NameText(members.name) + AfterName(members));
    AtConcat(s, p + |members.before|, NameText(members.name), AfterName(members));
  }

  /** A quoted name of a member, whose text is at `k`: either kind of decoder selects its field. */
  lemma QuotedKeyThere(body: seq<byte>, s: seq<byte>, i: nat, k: nat, d: Decoder, order: seq<seq<byte>>,
                       fields: map<seq<byte>, nat>, cfg: FieldConfig)
    requires IsStringBody(body) && At(s, k, Quoted(body)) && i <= |s| && SkipWhitespace(s, i) == k
    requires k + |body| + 2 <= |s| && ColonBehind(s, k + |body| + 2)
    requires Decodes(d, order, fields, cfg) && !d.SkipObject? && !cfg.disallowUnknown
    requires IsClosed(fields, cfg) && IsToLower(cfg.toLower)
    requires d.Table? ==> IsAgreedKey(Body(body), fields, cfg)
    ensures KeyIn(s, i, d, cfg) ==
            KeyOf(FindName(fields, LookedUp(body, cfg), cfg), SkipWhitespace(s, k + |body| + 2) + 1)
  {
    hide At, Decode, RawEnd, StringOf, FindName, FindHash, IsClosed, GeneralKeyAt, TableKeyAt, IsStringBody, HashRead,
         SelectsAlike, IsToLower, AreUsable, IsTable, IsOrder, PlainStop;
    QuotedThere(body, s, k);
    NameTextThere(body, s, k);
    if d.Table? {
      HashReadThere(body, s, k, cfg);
      DecodeFromStop(s, k + 1);
      TableAtQuote(s, i, d.entries, cfg);
      SelectsAlikeIff(LookedUp(body, cfg), HashRead(s, k + 1, cfg), d.entries, order, fields, cfg);
    } else {
      GeneralAtQuote(s, i, fields, cfg);
    }
  }

  /** Either kind of decoder reads the name of a member, finds the same field, and stands behind the colon. */
  lemma KeyThereIs(members: Grammar.Members, s: seq<byte>, i: nat, p: nat, d: Decoder, order: seq<seq<byte>>,
                   fields: map<seq<byte>, nat>, cfg: FieldConfig)
    requires AreShapedMembers(members) && At(s, p, MembersText(members)) && i <= |s|
    requires p <= |s| && SkipWhitespace(s, i) == SkipWhitespace(s, p)
    requires Decodes(d, order, fields, cfg) && !d.SkipObject? && !cfg.disallowUnknown
    requires IsClosed(fields, cfg) && IsToLower(cfg.toLower)
    requires d.Table? ==> IsAgreedKey(members.name, fields, cfg)
    ensures var n := FirstNameEnd(members, p);
      && n <= |s| && At(s, n, AfterName(members)) && ColonBehind(s, n)
      && KeyIn(s, i, d, cfg) == KeyOf(SlotOf(members.name, fields, cfg), SkipWhitespace(s, n) + 1)
  {
    hide At, Decode, RawEnd, StringOf, AfterName, MembersText, FindName, Decodes, IsClosed, GeneralKeyAt, TableKeyAt,
         IsStringBody, SelectsAlike, HashRead, SkipWhitespace, IsName, IsToLower, LookedUp, KeyIn;
    NameThere(members, s, p);
    var k, n := p + |members.before|, FirstNameEnd(members, p);
    ColonThere(members, s, n);
    if members.name.Body? {
      NameStands(members, s, p);
      QuotedKeyThere(members.name.text, s, i, k, d, order, fields, cfg);
    } else {
      NullKeyThere(s, i, k, d, order, fields, cfg);
    }
  }

  /** A null for a name, which only the general decoder takes. */
  lemma NullKeyThere(s: seq<byte>, i: nat, k: nat, d: Decoder, order: seq<seq<byte>>, fields: map<seq<byte>, nat>,
                     cfg: FieldConfig)
    requires i <= |s| && SkipWhitespace(s, i) == k && k + 4 <= |s| && s[k] == LOWER_N && At(s, k + 1, ULL)
    requires ColonBehind(s, k + 4)
    requires Decodes(d, order, fields, cfg) && d.General? && !cfg.disallowUnknown
    ensures KeyIn(s, i, d, cfg) == KeyOf(FindName(fields, [], cfg), SkipWhitespace(s, k + 4) + 1)
  {
    hide At, FindName, GeneralKeyAt, IsOrder;
    NoQuote(s, i, fields, [], cfg);
  }

  // ---------- The theorem ----------

  /** What decoding a struct from these members assigns: each known member in turn. */
  function AssignmentsOf(members: Grammar.Members, fields: map<seq<byte>, nat>, cfg: FieldConfig, m: Mode)
    : seq<Assignment>
  {
    Assign(SlotOf(members.name, fields, cfg), ValueOf(members.value, m))
    + if members.Member? then AssignmentsOf(members.rest, fields, cfg, m) else []
  }

  /** Every value can be read, if its field is known, or else skipped; the first name ends at `n`. */
  predicate FieldValuesTaken(
      members: Grammar.Members, n: nat, fields: map<seq<byte>, nat>, cfg: FieldConfig, m: Mode)
  {
    var j := n + |members.colon| + 1 + |members.middle|;
    && NumbersTaken(members.value, j, Some(MemberNext(members)), FieldMode(SlotOf(members.name, fields, cfg), m))
    && (members.Member? ==>
          FieldValuesTaken(members.rest,
                           FirstNameEnd(members.rest, j + |Text(members.value)| + |members.after| + 1), fields, cfg, m))
  }

  /** A value that is read or skipped, and assigned if it is read. */
  lemma AssignedValue(d: Doc, slot: Option<nat>, m: Mode)
    requires m.visitor.Reading?
    ensures Assign(slot, ValueOf(d, FieldMode(slot, m))) == Assign(slot, ValueOf(d, m))
  {
    hide ValueOf;
    if slot.Some? {
      assert FieldMode(slot, m) == m;
    }
  }

  /** The first field of the loop on members. */
  lemma FirstFieldDecodes(members: Grammar.Members, s: seq<byte>, i: nat, p: nat, d: Decoder, order: seq<seq<byte>>,
                          fields: map<seq<byte>, nat>, cfg: FieldConfig, depth: int, m: Mode)
    requires AreShapedMembers(members) && At(s, p, MembersText(members)) && i <= |s|
    requires p <= |s| && SkipWhitespace(s, i) == SkipWhitespace(s, p)
    requires FieldValuesTaken(members, FirstNameEnd(members, p), fields, cfg, m)
    requires depth + MembersNesting(members) <= MAX_DEPTH
    requires Decodes(d, order, fields, cfg) && !d.SkipObject? && !cfg.disallowUnknown && m.visitor.Reading?
    requires IsClosed(fields, cfg) && IsToLower(cfg.toLower)
    requires d.Table? ==> IsAgreedKey(members.name, fields, cfg)
    ensures var slot := SlotOf(members.name, fields, cfg);
      var k := FirstNameEnd(members, p) + |members.colon| + 1 + |members.middle| + |Text(members.value)|
               + |members.after|;
      KeyIn(s, i, d, cfg).KeyOf? && KeyIn(s, i, d, cfg).slot == slot &&
      var v := ValueAt(s, KeyIn(s, i, d, cfg).next, depth, FieldMode(slot, m));
      && v.Done? && v.next <= |s| && Assign(slot, v.value) == Assign(slot, ValueOf(members.value, m))
      && k == SkipWhitespace(s, v.next) < |s| && s[k] == (if members.Member? then COMMA else CLOSE_BRACE)
      && (members.Member? ==> At(s, k + 1, MembersText(members.rest)))
  {
    hide At, ValueAt, ValueFrom, IsShaped, NumbersTaken, Nesting, AfterName, MembersText, KeyIn, Decodes, IsClosed,
         IsAgreedKey, FindName, ValueOf, Text, SkipWhitespace, IsSpace, IsName, AfterMember, FirstNameEnd, SlotOf,
         Assign, FieldMode, IsToLower;
    var slot, n := SlotOf(members.name, fields, cfg), FirstNameEnd(members, p);
    KeyThereIs(members, s, i, p, d, order, fields, cfg);
    MemberStands(members, s, n, depth, FieldMode(slot, m));
    TakenThere(members.value, s, n + |members.colon| + 1 + |members.middle|, depth, FieldMode(slot, m));
    AssignedValue(members.value, slot, m);
  }

  /** The loop of either kind of decoder on members, from position `i` in front of the first name. */
  lemma {:induction false} MembersDecode(members: Grammar.Members, s: seq<byte>, i: nat, p: nat, d: Decoder,
                                         order: seq<seq<byte>>, fields: map<seq<byte>, nat>, cfg: FieldConfig,
                                         depth: int, m: Mode)
    requires AreShapedMembers(members) && At(s, p, MembersText(members)) && i <= |s|
    requires p <= |s| && SkipWhitespace(s, i) == SkipWhitespace(s, p)
    requires FieldValuesTaken(members, FirstNameEnd(members, p), fields, cfg, m)
    requires depth + MembersNesting(members) <= MAX_DEPTH
    requires Decodes(d, order, fields, cfg) && !d.SkipObject? && !cfg.disallowUnknown && m.visitor.Reading?
    requires IsClosed(fields, cfg) && IsToLower(cfg.toLower)
    requires d.Table? ==> AreAgreedKeys(members, fields, cfg)
    ensures StructFields(s, i, d, cfg, depth, m) ==
            Done(AssignmentsOf(members, fields, cfg, m), p + |MembersText(members)|)
    decreases members
  {
    hide At, ValueAt, IsShaped, NumbersTaken, Nesting, MembersText, KeyIn, Decodes, IsClosed, IsAgreedKey, FindName,
         StructFields, ValueOf, Assign, FieldMode, Text, IsSpace, IsName, FirstNameEnd, SlotOf, IsToLower;
    FirstFieldDecodes(members, s, i, p, d, order, fields, cfg, depth, m);
    StructFieldsUnfold(s, i, d, cfg, depth, m);
    MembersLength(members, s, p);
    if members.Member? {
      var key := KeyIn(s, i, d, cfg);
      var k := SkipWhitespace(s, ValueAt(s, key.next, depth, FieldMode(key.slot, m)).next);
      MembersDecode(members.rest, s, k + 1, k + 1, d, order, fields, cfg, depth, m);
    } else {
      NothingMore(members, fields, cfg, m);
    }
  }

  lemma MembersLength(members: Grammar.Members, s: seq<byte>, p: nat)
    requires AreShapedMembers(members) && At(s, p, MembersText(members))
    ensures p + |MembersText(members)| ==
            FirstNameEnd(members, p) + |members.colon| + 1 + |members.middle| + |Text(members.value)| + |members.after|
            + if members.Member? then 1 + |MembersText(members.rest)| else 1
  {
    hide At, AfterName, MembersText, Decode, RawEnd;
    NameThere(members, s, p);
    AfterNameLength(members, s, FirstNameEnd(members, p));
  }

  lemma NothingMore(members: Grammar.Members, fields: map<seq<byte>, nat>, cfg: FieldConfig, m: Mode)
    requires members.LastMember?
    ensures AssignmentsOf(members, fields, cfg, m) ==
            Assign(SlotOf(members.name, fields, cfg), ValueOf(members.value, m))
  {
    hide SlotOf, ValueOf, Assign;
  }

  /** Without fields nothing is assigned, and every value is skipped. */
  lemma {:induction false} NoFieldsNoAssignments(members: Grammar.Members, n: nat, cfg: FieldConfig, m: Mode)
    ensures AssignmentsOf(members, map[], cfg, m) == []
    ensures FieldValuesTaken(members, n, map[], cfg, m) ==> MemberNumbersTaken(members, n, m.(visitor := Skipping))
    decreases members
  {
    hide LookedUpName, ValueOf, NumbersTaken, FirstNameEnd, Text;
    if members.Member? {
      var k := n + |members.colon| + 1 + |members.middle| + |Text(members.value)| + |members.after|;
      NoFieldsNoAssignments(members.rest, FirstNameEnd(members.rest, k + 1), cfg, m);
    }
  }

  /**
   * An object in front of position `i`, whose known values can be read and the others skipped: every decoder that
   * `createStructDecoder` may choose makes the same assignments in the same order, and stops just behind the object
   * with the depth restored; a table, if it agrees on each name.
   */
  lemma EveryDecoderAgrees(members: Grammar.Members, s: seq<byte>, i: nat, d: Decoder, order: seq<seq<byte>>,
                           fields: map<seq<byte>, nat>, cfg: FieldConfig, depth: int, m: Mode)
    requires AreShapedMembers(members) && i <= |s| && At(s, SkipWhitespace(s, i), [OPEN_BRACE] + MembersText(members))
    requires FieldValuesTaken(members, FirstNameEnd(members, SkipWhitespace(s, i) + 1), fields, cfg, m)
    requires depth + 1 + MembersNesting(members) <= MAX_DEPTH
    requires Decodes(d, order, fields, cfg) && !cfg.disallowUnknown && m.visitor.Reading?
    requires IsClosed(fields, cfg) && IsToLower(cfg.toLower)
    requires d.Table? ==> AreAgreedKeys(members, fields, cfg)
    requires d.SkipObject? ==> members.name.Body?
    ensures StructAt(s, i, d, cfg, depth, m) ==
            Done(AssignmentsOf(members, fields, cfg, m), SkipWhitespace(s, i) + 1 + |MembersText(members)|)
  {
    hide At, MembersText, AreAgreedKeys, AssignmentsOf, StructFields, MemberNumbersTaken, MembersNesting,
         AreShapedMembers, IsClosed, ValueFrom, FieldValuesTaken, FirstNameEnd, IsToLower;
    var j := SkipWhitespace(s, i);
    LiteralThere(s, j, OPEN_BRACE, MembersText(members));
    if d.SkipObject? {
      NoOrderNoFields(order, fields);
      NoFieldsNoAssignments(members, FirstNameEnd(members, j + 1), cfg, m);
      ObjectSkips(members, s, i, depth, m.(visitor := Skipping));
    } else {
      FirstNameThere(members, s, j + 1);
      var k := SkipWhitespace(s, j + 1);
      SkipNothing(s, k);
      MembersDecode(members, s, k, j + 1, d, order, fields, cfg, depth + 1, m);
    }
  }

  lemma NoOrderNoFields(order: seq<seq<byte>>, fields: map<seq<byte>, nat>)
    requires IsOrder(order, fields) && order == []
    ensures fields == map[]
  {
    assert forall name :: name in fields ==> name in order;
  }

  lemma FirstNameThere(members: Grammar.Members, s: seq<byte>, p: nat)
    requires AreShapedMembers(members) && At(s, p, MembersText(members)) && p <= |s|
    ensures SkipWhitespace(s, p) < |s| && s[SkipWhitespace(s, p)] != CLOSE_BRACE
  {
    hide At, AfterName, MembersText, Decode, RawEnd;
    NameThere(members, s, p);
  }

  lemma ObjectSkips(members: Grammar.Members, s: seq<byte>, i: nat, depth: int, m: Mode)
    requires AreShapedMembers(members) && members.name.Body? && i <= |s|
    requires MemberNumbersTaken(members, FirstNameEnd(members, SkipWhitespace(s, i) + 1), m)
    requires depth + 1 + MembersNesting(members) <= MAX_DEPTH
    requires At(s, SkipWhitespace(s, i), [OPEN_BRACE] + MembersText(members))
    ensures var j := SkipWhitespace(s, i);
      && j < |s| && s[j] == OPEN_BRACE && ValueAt(s, j, depth, m).Done?
      && ValueAt(s, j, depth, m).next == j + 1 + |MembersText(members)|
  {
    hide At, MembersText, MemberNumbersTaken, MembersNesting, AreShapedMembers, ValueFrom, FirstNameEnd;
    var j := SkipWhitespace(s, i);
    LiteralThere(s, j, OPEN_BRACE, MembersText(members));
    SkipNothing(s, j);
    TakenThere(DObject(members), s, j, depth, m);
  }
}

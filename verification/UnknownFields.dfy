/**
 * Decoding where unknown fields are errors, the general decoder with `disallowUnknownFields`; and what decoding leaves
 * in the struct.
 */
module UnknownFields {
  import opened Bytes
  import opened IterCore
  import opened ValueMachines
  import opened Grammar
  import opened DocTheorems
  import opened LookupMachines
  import opened FieldHash
  import opened StructMachines
  import opened StructDecoder
  import opened StructTheorems

  /** The same configuration with unknown fields allowed. */
  function Allowing(cfg: FieldConfig): FieldConfig {
    cfg.(disallowUnknown := false)
  }

  /** Every name is that of a field. */
  predicate AreKnown(members: Grammar.Members, fields: map<seq<byte>, nat>, cfg: FieldConfig) {
    && SlotOf(members.name, fields, cfg).Some?
    && (members.Member? ==> AreKnown(members.rest, fields, cfg))
  }

  /** At a name of no field there is an error; any other name is read as if unknown fields were allowed. */
  lemma UnknownKeyIsBad(s: seq<byte>, i: nat, fields: map<seq<byte>, nat>, cfg: FieldConfig)
    requires i <= |s| && cfg.disallowUnknown
    ensures var key := GeneralKeyAt(s, i, fields, Allowing(cfg));
      GeneralKeyAt(s, i, fields, cfg) == if key.KeyOf? && key.slot.None? then BadKey else key
  {
    hide NameAt, FindName, ColonAt;
    SameLookup(s, i, fields, cfg);
  }

  lemma SameLookup(s: seq<byte>, i: nat, fields: map<seq<byte>, nat>, cfg: FieldConfig)
    requires i <= |s|
    ensures NameAt(s, i, cfg) == NameAt(s, i, Allowing(cfg))
    ensures forall name :: FindName(fields, name, cfg) == FindName(fields, name, Allowing(cfg))
  {
  }

  lemma SameSlot(name: Name, fields: map<seq<byte>, nat>, cfg: FieldConfig)
    ensures SlotOf(name, fields, cfg) == SlotOf(name, fields, Allowing(cfg))
  {
  }

  lemma SameClosed(fields: map<seq<byte>, nat>, cfg: FieldConfig)
    ensures IsClosed(fields, cfg) == IsClosed(fields, Allowing(cfg))
  {
  }

  lemma {:induction false} SameFields(
      members: Grammar.Members, n: nat, fields: map<seq<byte>, nat>, cfg: FieldConfig, m: Mode)
    ensures FieldValuesTaken(members, n, fields, cfg, m) == FieldValuesTaken(members, n, fields, Allowing(cfg), m)
    decreases members
  {
    hide SlotOf, NumbersTaken, Text, FieldMode, FirstNameEnd;
    SameSlot(members.name, fields, cfg);
    if members.Member? {
      var k := n + |members.colon| + 1 + |members.middle| + |Text(members.value)| + |members.after|;
      SameFields(members.rest, FirstNameEnd(members.rest, k + 1), fields, cfg, m);
    }
  }

  /** The loop of the general decoder on members, from position `i` in front of the first name. */
  lemma {:induction false} MembersDecodeStrictly(
      members: Grammar.Members, s: seq<byte>, i: nat, p: nat, fields: map<seq<byte>, nat>, order: seq<seq<byte>>,
      cfg: FieldConfig, depth: int, m: Mode)
    requires AreShapedMembers(members) && At(s, p, MembersText(members)) && i <= |s|
    requires p <= |s| && SkipWhitespace(s, i) == SkipWhitespace(s, p)
    requires FieldValuesTaken(members, FirstNameEnd(members, p), fields, cfg, m)
    requires depth + MembersNesting(members) <= MAX_DEPTH
    requires IsOrder(order, fields) && cfg.disallowUnknown && m.visitor.Reading?
    requires IsClosed(fields, cfg) && IsToLower(cfg.toLower)
    ensures StructFields(s, i, General(fields), cfg, depth, m) ==
            if AreKnown(members, fields, cfg)
            then Done(AssignmentsOf(members, fields, cfg, m), p + |MembersText(members)|) else Fails
    decreases members
  {
    hide At, ValueAt, IsShaped, NumbersTaken, Nesting, MembersText, IsClosed, FindName, GeneralKeyAt, IsOrder,
         StructFields, ValueOf, Assign, FieldMode, Text, IsSpace, IsName, FirstNameEnd, SlotOf, IsToLower;
    var d := General(fields);
    SameFields(members, FirstNameEnd(members, p), fields, cfg, m);
    SameSlot(members.name, fields, cfg);
    SameClosed(fields, cfg);
    FirstFieldDecodes(members, s, i, p, d, order, fields, Allowing(cfg), depth, m);
    UnknownKeyIsBad(s, i, fields, cfg);
    if SlotOf(members.name, fields, cfg).None? {
      BadKeyFails(s, i, d, cfg, depth, m);
    } else {
      StructFieldsUnfold(s, i, d, cfg, depth, m);
      MembersLength(members, s, p);
      if members.Member? {
        var key := KeyIn(s, i, d, cfg);
        var k := SkipWhitespace(s, ValueAt(s, key.next, depth, FieldMode(key.slot, m)).next);
        MembersDecodeStrictly(members.rest, s, k + 1, k + 1, fields, order, cfg, depth, m);
      } else {
        NothingMore(members, fields, cfg, m);
      }
    }
  }

  lemma BadKeyFails(s: seq<byte>, i: nat, d: Decoder, cfg: FieldConfig, depth: int, m: Mode)
    requires i <= |s| && !d.SkipObject? && KeyIn(s, i, d, cfg) == BadKey
    ensures StructFields(s, i, d, cfg, depth, m) == Fails
  {
    hide KeyIn, ValueAt;
  }

  /**
   * An object whose known values can be read and the others skipped: where unknown fields are errors, it is decoded
   * with the same assignments if every name is that of a field, and is an error otherwise.
   */
  lemma DecodedIffKnown(members: Grammar.Members, s: seq<byte>, i: nat, fields: map<seq<byte>, nat>,
                        order: seq<seq<byte>>, cfg: FieldConfig, depth: int, m: Mode)
    requires AreShapedMembers(members) && i <= |s| && At(s, SkipWhitespace(s, i), [OPEN_BRACE] + MembersText(members))
    requires FieldValuesTaken(members, FirstNameEnd(members, SkipWhitespace(s, i) + 1), fields, cfg, m)
    requires depth + 1 + MembersNesting(members) <= MAX_DEPTH
    requires IsOrder(order, fields) && cfg.disallowUnknown && m.visitor.Reading?
    requires IsClosed(fields, cfg) && IsToLower(cfg.toLower)
    ensures StructAt(s, i, General(fields), cfg, depth, m) ==
            if AreKnown(members, fields, cfg)
            then Done(AssignmentsOf(members, fields, cfg, m), SkipWhitespace(s, i) + 1 + |MembersText(members)|)
            else Fails
  {
    hide At, MembersText, AssignmentsOf, StructFields, MembersNesting, AreShapedMembers, IsClosed, FieldValuesTaken,
         FirstNameEnd, IsToLower, AreKnown, IsOrder;
    var j := SkipWhitespace(s, i);
    LiteralThere(s, j, OPEN_BRACE, MembersText(members));
    FirstNameThere(members, s, j + 1);
    var k := SkipWhitespace(s, j + 1);
    SkipNothing(s, k);
    MembersDecodeStrictly(members, s, k, j + 1, fields, order, cfg, depth + 1, m);
  }

  /** A struct with a field, inside 10000 open containers, is one too many. */
  lemma StructTooDeep(s: seq<byte>, i: nat, d: Decoder, cfg: FieldConfig, depth: int, m: Mode)
    requires i <= |s| && !d.SkipObject? && depth >= 10000
    requires var j := SkipWhitespace(s, i);
      && j < |s| && s[j] == 0x7B
      && (SkipWhitespace(s, j + 1) < |s| ==> s[SkipWhitespace(s, j + 1)] != 0x7D)
    ensures StructAt(s, i, d, cfg, depth, m) == Fails
  {
    hide StructFields;
  }

  /** The last assignment to a slot decides what the slot holds. */
  lemma {:induction false} LastAssignmentStays(slots: map<nat, Value>, done: seq<Assignment>, k: nat)
    requires k < |done| && forall x :: k < x < |done| ==> done[x].0 != done[k].0
    ensures done[k].0 in Assigned(slots, done) && Assigned(slots, done)[done[k].0] == done[k].1
    decreases |done|
  {
    if k < |done| - 1 {
      LastAssignmentStays(slots, done[..|done| - 1], k);
    }
  }

  /** A slot that nothing is assigned to holds what it held. */
  lemma {:induction false} OthersStay(slots: map<nat, Value>, done: seq<Assignment>, slot: nat)
    requires forall x :: 0 <= x < |done| ==> done[x].0 != slot
    ensures slot in Assigned(slots, done) <==> slot in slots
    ensures slot in slots ==> Assigned(slots, done)[slot] == slots[slot]
    decreases |done|
  {
    if done != [] {
      OthersStay(slots, done[..|done| - 1], slot);
    }
  }
}

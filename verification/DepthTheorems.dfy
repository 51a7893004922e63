/** The depth limit is exact, and exponent-free documents need no help from strconv to be skipped. */
module DepthTheorems {
  import opened Bytes
  import opened StringMachines
  import opened FloatMachines
  import opened IterCore
  import opened NumberSkips
  import opened ValueMachines
  import opened Grammar
  import opened DocTheorems

  // ---------- Nested too deeply ----------

  /** A document whose numbers are taken, nested beyond the limit, fails, wherever in it the limit is passed. */
  lemma {:induction false} TooDeepFails(d: Doc, s: seq<byte>, j: nat, depth: int, m: Mode)
    requires At(s, j, Text(d)) && IsTaken(d, j, ByteAt(s, j + |Text(d)|), m)
    requires depth <= MAX_DEPTH < depth + Nesting(d)
    ensures j < |s| && ValueFrom(s, j, depth, m) == Fails
    decreases d, 1
  {
    hide At, Decode, RawEnd, IsSpace, ArrayAt, ObjectAt, ItemsText, MembersText;
    ValueBegins(d, s, j);
    AtIndex(s, j, Text(d), 0);
    match d {
      case DEmptyArray(space) => NoRoom(s, j, depth, m);
      case DArray(items) => ArrayTooDeep(items, s, j, depth, m);
      case DEmptyObject(space) => NoRoom(s, j, depth, m);
      case DObject(members) => ObjectTooDeep(members, s, j, depth, m);
      case _ =>
    }
  }

  lemma NoRoom(s: seq<byte>, j: nat, depth: int, m: Mode)
    requires j < |s| && depth + 1 > MAX_DEPTH
    ensures s[j] == OPEN_BRACKET ==> ArrayAt(s, j, depth, m) == Fails
    ensures s[j] == OPEN_BRACE ==> ObjectAt(s, j, depth, m) == Fails
  {
    if s[j] == OPEN_BRACKET || s[j] == OPEN_BRACE {
      SkipNothing(s, j);
    }
  }

  lemma {:induction false} ArrayTooDeep(items: Items, s: seq<byte>, j: nat, depth: int, m: Mode)
    requires AreShapedItems(items) && ItemNumbersTaken(items, j + 1, m)
    requires depth <= MAX_DEPTH < depth + 1 + ItemsNesting(items)
    requires At(s, j, [OPEN_BRACKET] + ItemsText(items))
    ensures j < |s| && s[j] == OPEN_BRACKET && ArrayAt(s, j, depth, m) == Fails
    decreases items, 1
  {
    hide At, Elements, ItemsText, AreShapedItems, ItemNumbersTaken, ItemsNesting;
    LiteralThere(s, j, OPEN_BRACKET, ItemsText(items));
    SkipNothing(s, j);
    if depth + 1 <= MAX_DEPTH {
      ItemsTooDeep(items, s, j + 1, depth + 1, m);
      ItemsBegin(items, s, j + 1);
      ElementsSkipSpace(s, j + 1, depth + 1, m);
    }
  }

  lemma {:induction false} ItemsTooDeep(items: Items, s: seq<byte>, i: nat, depth: int, m: Mode)
    requires AreShapedItems(items) && ItemNumbersTaken(items, i, m)
    requires depth <= MAX_DEPTH < depth + ItemsNesting(items)
    requires At(s, i, ItemsText(items))
    ensures i <= |s| && Elements(s, i, depth, m) == Fails
    decreases items, 0
  {
    hide At, ValueFrom, Text, IsShaped, NumbersTaken, Nesting, ValueOf;
    ItemsBegin(items, s, i);
    var j := i + |items.before|;
    ItemSplit(items, s, j);
    if depth + Nesting(items.value) > MAX_DEPTH {
      TooDeepFails(items.value, s, j, depth, m);
    } else {
      TakenThere(items.value, s, j, depth, m);
      ItemsTooDeep(items.rest, s, j + |Text(items.value)| + |items.after| + 1, depth, m);
    }
  }

  lemma {:induction false} ObjectTooDeep(members: Grammar.Members, s: seq<byte>, j: nat, depth: int, m: Mode)
    requires members.name.Body? && AreShapedMembers(members)
    requires MemberNumbersTaken(members, FirstNameEnd(members, j + 1), m)
    requires depth <= MAX_DEPTH < depth + 1 + MembersNesting(members)
    requires At(s, j, [OPEN_BRACE] + MembersText(members))
    ensures j < |s| && s[j] == OPEN_BRACE && ObjectAt(s, j, depth, m) == Fails
    decreases members, 1
  {
    hide At, ValueMachines.Members, MembersText, AfterName, AreShapedMembers, MemberNumbersTaken, Decode, RawEnd,
         MembersNesting;
    LiteralThere(s, j, OPEN_BRACE, MembersText(members));
    SkipNothing(s, j);
    if depth + 1 <= MAX_DEPTH {
      NameThere(members, s, j + 1);
      MembersTooDeep(members, s, j + 1 + |members.before| + |NameText(members.name)|, depth + 1, m);
    }
  }

  lemma {:induction false} MembersTooDeep(members: Grammar.Members, s: seq<byte>, i: nat, depth: int, m: Mode)
    requires AreShapedMembers(members) && MemberNumbersTaken(members, i, m)
    requires depth <= MAX_DEPTH < depth + MembersNesting(members)
    requires At(s, i, AfterName(members))
    ensures i <= |s| && ValueMachines.Members(s, i, NameOf(members.name), depth, m) == Fails
    decreases members, 0
  {
    hide At, ValueFrom, ValueAt, Text, IsShaped, NumbersTaken, Nesting, ValueOf, NameOf, AfterName, MembersText, KeyAt,
         ValueMachines.Members, IsSpace, IsName, NameText, SkipWhitespace;
    MemberStands(members, s, i, depth, m);
    MembersFail(s, i, NameOf(members.name), depth, m);
    var j := i + |members.colon| + 1 + |members.middle|;
    if depth + Nesting(members.value) > MAX_DEPTH {
      TooDeepFails(members.value, s, j, depth, m);
    } else {
      TakenThere(members.value, s, j, depth, m);
      var p := j + |Text(members.value)| + |members.after| + 1;
      KeyThere(members.rest, s, p);
      MembersTooDeep(members.rest, s, KeyAt(s, p).next, depth, m);
    }
  }

  /** A list of members fails when its first value does, or what is behind the comma. */
  lemma MembersFail(s: seq<byte>, i: nat, key: seq<byte>, depth: int, m: Mode)
    requires i <= |s|
    ensures var t := SkipWhitespace(s, i);
      t < |s| && s[t] == COLON ==>
        var v := ValueAt(s, t + 1, depth, m);
        && (v.Fails? ==> ValueMachines.Members(s, i, key, depth, m) == Fails)
        && (v.Done? && SkipWhitespace(s, v.next) < |s| && s[SkipWhitespace(s, v.next)] == COMMA ==>
              MembersAfterComma(s, SkipWhitespace(s, v.next) + 1, depth, m).Fails? ==>
                ValueMachines.Members(s, i, key, depth, m) == Fails)
  {
    hide ValueAt, MembersAfterComma;
  }

  /** A document whose numbers are taken is taken exactly when its containers nest within the limit. */
  lemma TakenIffWithinLimit(d: Doc, s: seq<byte>, j: nat, depth: int, m: Mode)
    requires At(s, j, Text(d)) && IsTaken(d, j, ByteAt(s, j + |Text(d)|), m) && depth <= 10000
    ensures j < |s|
    ensures ValueFrom(s, j, depth, m).Done? <==> depth + Nesting(d) <= 10000
    ensures ValueFrom(s, j, depth, m).Done? ==> ValueFrom(s, j, depth, m) == Done(ValueOf(d, m), j + |Text(d)|)
    ensures !ValueFrom(s, j, depth, m).Done? ==> ValueFrom(s, j, depth, m) == Fails
  {
    hide At, Text, IsTaken, Nesting, ValueFrom, ValueOf;
    if depth + Nesting(d) <= MAX_DEPTH {
      TakenThere(d, s, j, depth, m);
    } else {
      TooDeepFails(d, s, j, depth, m);
    }
  }

  // ---------- Exponent-free documents ----------

  /** strconv reports no number below ten, written without exponent, as out of range. */
  ghost predicate ParsesSmall(parsers: FloatParsers) {
    forall text :: IsNumberText(text) && IsExponentFree(text) && (|text| == 1 || text[0] == ZERO) ==>
                     parsers.accepts32(text) && parsers.accepts64(text)
  }

  predicate HasNoExponents(d: Doc) {
    match d
    case DNumber(text) => IsExponentFree(text)
    case DArray(items) => ItemsHaveNoExponents(items)
    case DObject(members) => MembersHaveNoExponents(members)
    case _ => true
  }

  predicate ItemsHaveNoExponents(items: Items) {
    HasNoExponents(items.value) && (items.Item? ==> ItemsHaveNoExponents(items.rest))
  }

  predicate MembersHaveNoExponents(members: Grammar.Members) {
    HasNoExponents(members.value) && (members.Member? ==> MembersHaveNoExponents(members.rest))
  }

  /** In a flat buffer numbers without exponent can always be skipped, however large. */
  lemma {:induction false} ExponentFreeIsSkippable(d: Doc, m: Mode)
    requires WellFormed(d) && HasNoExponents(d) && m.chunks == [] && ParsesSmall(m.parsers)
    ensures IsSkippable(d, m)
    decreases d, 1
  {
    hide IsNumberText, IsStringBody, IsSpace;
    match d {
      case DNumber(text) => SmallOrUnconverted(text, m);
      case DArray(items) => ItemsAreSkippable(items, m);
      case DObject(members) => MembersAreSkippable(members, m);
      case _ =>
    }
  }

  lemma SmallOrUnconverted(text: seq<byte>, m: Mode)
    requires IsNumberText(text) && IsExponentFree(text) && m.chunks == [] && ParsesSmall(m.parsers)
    ensures IsSkippableNumber(text, m)
  {
    hide RfcFraction, WholeEnd;
    if |text| <= 1 || text[0] == ZERO {
      assert UnsignedText(text) == text;
    }
  }

  lemma {:induction false} ItemsAreSkippable(items: Items, m: Mode)
    requires WellFormedItems(items) && ItemsHaveNoExponents(items) && m.chunks == [] && ParsesSmall(m.parsers)
    ensures AreSkippableItems(items, m)
    decreases items, 0
  {
    hide IsNumberText, IsSpace, WellFormed, HasNoExponents;
    ExponentFreeIsSkippable(items.value, m);
    if items.Item? {
      ItemsAreSkippable(items.rest, m);
    }
  }

  lemma {:induction false} MembersAreSkippable(members: Grammar.Members, m: Mode)
    requires WellFormedMembers(members) && MembersHaveNoExponents(members) && m.chunks == [] && ParsesSmall(m.parsers)
    ensures AreSkippableMembers(members, m)
    decreases members, 0
  {
    hide IsNumberText, IsStringBody, IsSpace, WellFormed, HasNoExponents;
    ExponentFreeIsSkippable(members.value, m);
    if members.Member? {
      MembersAreSkippable(members.rest, m);
    }
  }
}

/** Every document of the grammar whose numbers are taken is read and skipped exactly. */
module DocTheorems {
  import opened Bytes
  import opened Decimals
  import opened IntMachines
  import opened StringMachines
  import opened FloatMachines
  import opened NumberTheorems
  import opened NumberSkips
  import opened IterCore
  import opened ValueMachines
  import opened Grammar
  import opened NumberForms

  // ---------- Numbers ----------

  lemma NumberFollowed(t: seq<byte>, s: seq<byte>, j: nat)
    requires At(s, j, t) && (j + |t| < |s| ==> !IsNumberChar(s[j + |t|]))
    ensures NumberThere(t, s, j)
  {
    AtSlice(t, 0, |t|, s, j);
    assert t[0..|t|] == t;
  }

  /** A run of number characters in place is the run that the readers collect there. */
  lemma RunThere(t: seq<byte>, s: seq<byte>, j: nat)
    requires IsNumberRun(t) && At(s, j, t) && (j + |t| < |s| ==> !IsNumberChar(s[j + |t|]))
    ensures j < j + |t| <= |s| && s[j] == t[0] && StartsNumber(s[j])
    ensures NumberEnd(s, j) == j + |t| && RunAt(s, j) == t
  {
    NumberFollowed(t, s, j);
    assert s[j + 0] == t[0];
    forall k | j <= k < j + |t| ensures IsNumberChar(s[k]) {
      assert s[j + (k - j)] == t[k - j];
    }
    NumberEndIs(s, j, j + |t|);
  }

  /** A taken number ends where it does, with its value. */
  lemma NumberTakenThere(text: seq<byte>, s: seq<byte>, j: nat, m: Mode)
    requires IsTakenNumber(text, j, ByteAt(s, j + |text|), m) && At(s, j, text)
    ensures j < |s| && StartsNumber(s[j]) && NumberValueAt(s, j, m) == Done(Seen(Number(text), m), j + |text|)
  {
    hide At, IsNumberRun, NumberEnd, SkipNumberAt, TakenBySkip, RoomAt, BufferEnd;
    RunThere(text, s, j);
    if m.visitor.Skipping? {
      var limit := BufferEnd(s, m.chunks, j);
      SkipNumberTaken(s, j, limit, m.parsers);
      RoomIs(s, j, text, m);
    }
  }

  /** The room of a number in its text, as far as it matters. */
  lemma RoomIs(s: seq<byte>, j: nat, t: seq<byte>, m: Mode)
    requires j < |s| && j + |t| < |s|
    ensures TakenBySkip(t, s[j + |t|], BufferEnd(s, m.chunks, j) - j, m.parsers) ==
            TakenBySkip(t, s[j + |t|], RoomAt(m, j, |t|), m.parsers)
  {
    hide TakenBySkip;
    if BufferEnd(s, m.chunks, j) - j != RoomAt(m, j, |t|) {
      RoomEnough(t, s[j + |t|], BufferEnd(s, m.chunks, j) - j, RoomAt(m, j, |t|), m.parsers);
    }
  }

  // ---------- Strings and whitespace ----------

  lemma StringThere(body: seq<byte>, s: seq<byte>, j: nat)
    requires IsStringBody(body) && At(s, j, body + [QUOTE])
    ensures Decode(s, j) == Ok(StringOf(body), j + |body| + 1)
    ensures RawEnd(s, j) == Some(j + |body| + 1)
  {
    hide Decode, RawEnd, At;
    var t := body + [QUOTE];
    assert t[0..|t|] == t;
    RawEndLocal(t, 0, s, j);
    RawEndIffDecode(t, 0);
    DecodeLocal(t, 0, s, j);
  }

  lemma SpaceThere(w: seq<byte>, s: seq<byte>, i: nat)
    requires IsSpace(w) && At(s, i, w)
    requires i + |w| < |s| ==> !IsWhitespace(s[i + |w|])
    ensures i + |w| <= |s| && SkipWhitespace(s, i) == i + |w|
  {
    AtSlice(w, 0, |w|, s, i);
    assert w[0..|w|] == w;
    forall k | i <= k < i + |w| ensures IsWhitespace(s[k]) {
      assert s[i + (k - i)] == w[k - i];
    }
    SkipWhitespaceUnique(s, i, i + |w|);
  }

  /** What a value starts with: no whitespace, no closing bracket or brace, no comma or colon. */
  predicate StartsValue(c: byte) {
    || c == QUOTE || c == LOWER_N || c == LOWER_T || c == LOWER_F || StartsNumber(c)
    || c == OPEN_BRACKET || c == OPEN_BRACE
  }

  lemma FirstByte(d: Doc)
    requires IsShaped(d)
    ensures Text(d) != [] && StartsValue(Text(d)[0])
  {
  }

  lemma ValueBegins(d: Doc, s: seq<byte>, j: nat)
    requires IsShaped(d) && At(s, j, Text(d))
    ensures j + |Text(d)| <= |s| && |Text(d)| > 0 && StartsValue(s[j])
  {
    hide At, Text, WellFormed;
    FirstByte(d);
    AtIndex(s, j, Text(d), 0);
  }

  /** What stands at the start of whitespace and a delimiter is a delimiter. */
  lemma DelimiterBehind(w: seq<byte>, rest: seq<byte>, s: seq<byte>, e: nat)
    requires IsSpace(w) && At(s, e, w + rest) && rest != [] && IsDelimiter(rest[0])
    ensures e < |s| && IsDelimiter(s[e]) && s[e] == if w != [] then w[0] else rest[0]
  {
    hide At;
    AtIndex(s, e, w + rest, 0);
  }

  // ---------- Values ----------

  /** A document whose numbers are taken; it stands at `j`, and `next` is the byte behind it. */
  predicate IsTaken(d: Doc, j: nat, next: Option<byte>, m: Mode) {
    IsShaped(d) && NumbersTaken(d, j, next, m)
  }

  /**
   * A document whose numbers are taken, nested within the limit: skipping it and reading it end exactly behind it,
   * and reading gives its value.
   */
  lemma {:induction false} TakenThere(d: Doc, s: seq<byte>, j: nat, depth: int, m: Mode)
    requires At(s, j, Text(d)) && IsTaken(d, j, ByteAt(s, j + |Text(d)|), m) && depth + Nesting(d) <= MAX_DEPTH
    ensures j < |s| && ValueFrom(s, j, depth, m) == Done(ValueOf(d, m), j + |Text(d)|)
    decreases d, 1
  {
    hide At, Decode, RawEnd, IsStringBody, IsTakenNumber, NumberEnd, IsSpace, IsNumberRun, ItemNumbersTaken,
         MemberNumbersTaken, AreShapedItems, AreShapedMembers, ItemsText, MembersText, ItemsNesting, MembersNesting,
         FirstNameEnd, StringOf, ArrayAt, ObjectAt;
    ValueBegins(d, s, j);
    match d {
      case DNull => LiteralThere(s, j, LOWER_N, ULL);
      case DTrue => LiteralThere(s, j, LOWER_T, RUE);
      case DFalse => LiteralThere(s, j, LOWER_F, ALSE);
      case DNumber(text) => NumberTakenThere(text, s, j, m);
      case DString(body) => QuotedThere(body, s, j);
      case DEmptyArray(space) => EmptyArrayThere(space, s, j, depth, m);
      case DArray(items) => ArrayThere(items, s, j, depth, m);
      case DEmptyObject(space) => EmptyObjectThere(space, s, j, depth, m);
      case DObject(members) => ObjectThere(members, s, j, depth, m);
    }
  }

  lemma LiteralThere(s: seq<byte>, j: nat, c: byte, rest: seq<byte>)
    requires At(s, j, [c] + rest)
    ensures j < |s| && s[j] == c && At(s, j + 1, rest)
  {
    AtConcat(s, j, [c], rest);
    AtByte(s, j, c);
  }

  lemma QuotedThere(body: seq<byte>, s: seq<byte>, j: nat)
    requires IsStringBody(body) && At(s, j, Quoted(body))
    ensures j < |s| && s[j] == QUOTE && j + |body| + 2 <= |s|
    ensures Decode(s, j + 1) == Ok(StringOf(body), j + |body| + 2)
    ensures RawEnd(s, j + 1) == Some(j + |body| + 2)
  {
    hide Decode, RawEnd, IsStringBody;
    LiteralThere(s, j, QUOTE, body + [QUOTE]);
    StringThere(body, s, j + 1);
  }

  lemma EmptyThere(space: seq<byte>, open: byte, close: byte, s: seq<byte>, j: nat)
    requires IsSpace(space) && !IsWhitespace(close) && At(s, j, [open] + (space + [close]))
    ensures j < |s| && s[j] == open && j + |space| + 2 <= |s|
    ensures SkipWhitespace(s, j + 1) == j + 1 + |space| && s[j + 1 + |space|] == close
  {
    LiteralThere(s, j, open, space + [close]);
    AtConcat(s, j + 1, space, [close]);
    AtByte(s, j + 1 + |space|, close);
    SpaceThere(space, s, j + 1);
  }

  lemma EmptyArrayThere(space: seq<byte>, s: seq<byte>, j: nat, depth: int, m: Mode)
    requires IsSpace(space) && depth + 1 <= MAX_DEPTH && At(s, j, [OPEN_BRACKET] + (space + [CLOSE_BRACKET]))
    ensures j < |s| && s[j] == OPEN_BRACKET && ArrayAt(s, j, depth, m) == Done([], j + |space| + 2)
  {
    hide At, Elements, IsSpace;
    EmptyThere(space, OPEN_BRACKET, CLOSE_BRACKET, s, j);
    SkipNothing(s, j);
  }

  lemma EmptyObjectThere(space: seq<byte>, s: seq<byte>, j: nat, depth: int, m: Mode)
    requires IsSpace(space) && depth + 1 <= MAX_DEPTH && At(s, j, [OPEN_BRACE] + (space + [CLOSE_BRACE]))
    ensures j < |s| && s[j] == OPEN_BRACE && ObjectAt(s, j, depth, m) == Done([], j + |space| + 2)
  {
    hide At, ValueMachines.Members, IsSpace;
    EmptyThere(space, OPEN_BRACE, CLOSE_BRACE, s, j);
    SkipNothing(s, j);
  }

  lemma {:induction false} ArrayThere(items: Items, s: seq<byte>, j: nat, depth: int, m: Mode)
    requires AreShapedItems(items) && ItemNumbersTaken(items, j + 1, m) && depth + 1 + ItemsNesting(items) <= MAX_DEPTH
    requires At(s, j, [OPEN_BRACKET] + ItemsText(items))
    ensures j < |s| && s[j] == OPEN_BRACKET
    ensures ArrayAt(s, j, depth, m) == Done(ItemValues(items, m), j + 1 + |ItemsText(items)|)
    decreases items, 2
  {
    hide At, Elements, ItemsText, AreShapedItems, ItemNumbersTaken;
    LiteralThere(s, j, OPEN_BRACKET, ItemsText(items));
    SkipNothing(s, j);
    ItemsThere(items, s, j + 1, depth + 1, m);
    ItemsBegin(items, s, j + 1);
    ElementsSkipSpace(s, j + 1, depth + 1, m);
  }

  /** In front of the first element stands a value, not a closing bracket. */
  lemma ItemsBegin(items: Items, s: seq<byte>, i: nat)
    requires AreShapedItems(items) && At(s, i, ItemsText(items))
    ensures i <= |s| && SkipWhitespace(s, i) == i + |items.before| < |s|
    ensures StartsValue(s[i + |items.before|])
    ensures At(s, i + |items.before|, Text(items.value) + AfterItem(items))
  {
    hide At, Text, IsShaped;
    ItemsTextIs(items);
    AtConcat(s, i, items.before, Text(items.value) + AfterItem(items));
    var j := i + |items.before|;
    AtConcat(s, j, Text(items.value), AfterItem(items));
    ValueBegins(items.value, s, j);
    SpaceThere(items.before, s, i);
  }

  /** What follows the first value of a list. */
  function AfterItem(items: Items): seq<byte> {
    items.after + (if items.Item? then [COMMA] + ItemsText(items.rest) else [CLOSE_BRACKET])
  }

  lemma ItemsTextIs(items: Items)
    ensures ItemsText(items) == items.before + (Text(items.value) + AfterItem(items))
  {
  }

  lemma ElementsSkipSpace(s: seq<byte>, i: nat, depth: int, m: Mode)
    requires i <= |s|
    ensures Elements(s, SkipWhitespace(s, i), depth, m) == Elements(s, i, depth, m)
  {
    hide ValueFrom;
    SkipWhitespaceUnique(s, SkipWhitespace(s, i), SkipWhitespace(s, i));
  }

  lemma {:induction false} ItemsThere(items: Items, s: seq<byte>, i: nat, depth: int, m: Mode)
    requires AreShapedItems(items) && ItemNumbersTaken(items, i, m) && depth + ItemsNesting(items) <= MAX_DEPTH
    requires At(s, i, ItemsText(items))
    ensures i <= |s| && Elements(s, i, depth, m) == Done(ItemValues(items, m), i + |ItemsText(items)|)
    decreases items, 1
  {
    hide At, ValueFrom, Text, IsShaped, NumbersTaken, Nesting, ValueOf, Elements;
    ItemsBegin(items, s, i);
    ItemsTextIs(items);
    var j := i + |items.before|;
    var e := j + |Text(items.value)|;
    ItemSplit(items, s, j);
    TakenThere(items.value, s, j, depth, m);
    ElementsUnfold(s, i, depth, m);
    if items.Item? {
      ItemsThere(items.rest, s, e + |items.after| + 1, depth, m);
    }
  }

  /** `Elements` one value at a time, where that value is there. */
  lemma ElementsUnfold(s: seq<byte>, i: nat, depth: int, m: Mode)
    requires i <= |s|
    ensures ValueAt(s, i, depth, m).Done? ==>
        var first := ValueAt(s, i, depth, m);
        var k := SkipWhitespace(s, first.next);
        k < |s| ==>
          && (s[k] == CLOSE_BRACKET ==> Elements(s, i, depth, m) == Done([first.value], k + 1))
          && (s[k] == COMMA && Elements(s, k + 1, depth, m).Done? ==>
                var rest := Elements(s, k + 1, depth, m);
                Elements(s, i, depth, m) == Done([first.value] + rest.value, rest.next))
  {
    hide ValueAt;
  }

  /** The bytes from the first value on. */
  lemma ItemSplit(items: Items, s: seq<byte>, j: nat)
    requires AreShapedItems(items) && At(s, j, Text(items.value) + AfterItem(items))
    ensures At(s, j, Text(items.value))
    ensures var e := j + |Text(items.value)|;
      var k := e + |items.after|;
      && k < |s| && IsDelimiter(s[e]) && s[e] == ItemNext(items) && SkipWhitespace(s, e) == k
      && s[k] == (if items.Item? then COMMA else CLOSE_BRACKET)
      && (items.Item? ==> At(s, k + 1, ItemsText(items.rest)))
  {
    hide At, Text, IsShaped, ItemsText;
    var e := j + |Text(items.value)|;
    var k := e + |items.after|;
    var rest := if items.Item? then [COMMA] + ItemsText(items.rest) else [CLOSE_BRACKET];
    AtConcat(s, j, Text(items.value), AfterItem(items));
    DelimiterBehind(items.after, rest, s, e);
    AtConcat(s, e, items.after, rest);
    AtIndex(s, k, rest, 0);
    SpaceThere(items.after, s, e);
    if items.Item? {
      LiteralThere(s, k, COMMA, ItemsText(items.rest));
    }
  }

  lemma ItemSpaces(items: Items, s: seq<byte>, i: nat)
    requires AreShapedItems(items) && At(s, i, ItemsText(items))
    ensures var j := i + |items.before|;
      var e := j + |Text(items.value)|;
      var k := e + |items.after|;
      && At(s, i, items.before) && At(s, j, Text(items.value)) && At(s, e, items.after)
      && k < |s| && s[k] == (if items.Item? then COMMA else CLOSE_BRACKET)
      && (items.Item? ==> At(s, k + 1, ItemsText(items.rest)))
      && |ItemsText(items)| == k - i + (if items.Item? then 1 + |ItemsText(items.rest)| else 1)
  {
    hide At, Text, IsShaped;
    var j := i + |items.before|;
    var e := j + |Text(items.value)|;
    var rest := if items.Item? then [COMMA] + ItemsText(items.rest) else [CLOSE_BRACKET];
    ItemsTextIs(items);
    AtConcat(s, i, items.before, Text(items.value) + AfterItem(items));
    AtConcat(s, j, Text(items.value), AfterItem(items));
    AtConcat(s, e, items.after, rest);
    AtIndex(s, e + |items.after|, rest, 0);
    if items.Item? {
      LiteralThere(s, e + |items.after|, COMMA, ItemsText(items.rest));
    }
  }

  // ---------- Objects ----------

  lemma {:induction false} ObjectThere(members: Members, s: seq<byte>, j: nat, depth: int, m: Mode)
    requires members.name.Body? && AreShapedMembers(members)
    requires MemberNumbersTaken(members, FirstNameEnd(members, j + 1), m)
    requires depth + 1 + MembersNesting(members) <= MAX_DEPTH
    requires At(s, j, [OPEN_BRACE] + MembersText(members))
    ensures j < |s| && s[j] == OPEN_BRACE
    ensures ObjectAt(s, j, depth, m) == Done(FieldsOf(members, m), j + 1 + |MembersText(members)|)
    decreases members, 2
  {
    hide At, ValueMachines.Members, MembersText, AfterName, AreShapedMembers, MemberNumbersTaken, Decode, RawEnd;
    LiteralThere(s, j, OPEN_BRACE, MembersText(members));
    SkipNothing(s, j);
    NameThere(members, s, j + 1);
    MembersThere(members, s, j + 1 + |members.before| + |NameText(members.name)|, depth + 1, m);
  }

  /** The first name of a list of members, and what stands behind it. */
  lemma NameThere(members: Members, s: seq<byte>, i: nat)
    requires AreShapedMembers(members) && At(s, i, MembersText(members))
    ensures var k := i + |members.before|;
      var n := k + |NameText(members.name)|;
      && k < n <= |s| && SkipWhitespace(s, i) == k && At(s, n, AfterName(members))
      && |MembersText(members)| == n - i + |AfterName(members)|
      && if members.name.Body?
         then && s[k] == QUOTE && Decode(s, k + 1) == Ok(NameOf(members.name), n) && RawEnd(s, k + 1) == Some(n)
              && n == k + 2 + |members.name.text|
         else s[k] == LOWER_N && At(s, k + 1, ULL) && n == k + 4
  {
    hide At, Decode, RawEnd, AfterName, IsStringBody, StringOf, MembersText, SkipWhitespace, IsSpace;
    var k := i + |members.before|;
    NamePlace(members, s, i);
    if members.name.Body? {
      QuotedThere(members.name.text, s, k);
    } else {
      LiteralThere(s, k, LOWER_N, ULL);
    }
  }

  lemma NamePlace(members: Members, s: seq<byte>, i: nat)
    requires AreShapedMembers(members) && At(s, i, MembersText(members))
    ensures var k := i + |members.before|;
      var n := k + |NameText(members.name)|;
      && k < n <= |s| && SkipWhitespace(s, i) == k && At(s, k, NameText(members.name)) && At(s, n, AfterName(members))
      && |MembersText(members)| == n - i + |AfterName(members)|
  {
    hide At, AfterName, IsSpace, IsStringBody, IsShaped, SkipWhitespace, IsWhitespace;
    var k := i + |members.before|;
    AtConcat(s, i, members.before, NameText(members.name) + AfterName(members));
    AtConcat(s, k, NameText(members.name), AfterName(members));
    NameStarts(members.name, s, k);
    SpaceThere(members.before, s, i);
  }

  lemma NameStarts(name: Name, s: seq<byte>, k: nat)
    requires At(s, k, NameText(name))
    ensures k < k + |NameText(name)| <= |s| && !IsWhitespace(s[k])
  {
    AtIndex(s, k, NameText(name), 0);
  }

  /** The colon behind the first name, and the value behind it. */
  lemma ColonThere(members: Members, s: seq<byte>, i: nat)
    requires AreShapedMembers(members) && At(s, i, AfterName(members))
    ensures var t := i + |members.colon|;
      var j := t + 1 + |members.middle|;
      && j < |s| && SkipWhitespace(s, i) == t && s[t] == COLON && SkipWhitespace(s, t + 1) == j
      && At(s, j, Text(members.value) + (members.after + AfterMember(members)))
      && |AfterName(members)| ==
           |members.colon| + 1 + |members.middle| + |Text(members.value)| + |members.after| + |AfterMember(members)|
  {
    hide At, AfterMember, Text, IsShaped;
    var t := i + |members.colon|;
    var j := t + 1 + |members.middle|;
    var value := Text(members.value) + (members.after + AfterMember(members));
    AtConcat(s, i, members.colon, [COLON] + (members.middle + value));
    LiteralThere(s, t, COLON, members.middle + value);
    AtConcat(s, t + 1, members.middle, value);
    AtConcat(s, j, Text(members.value), members.after + AfterMember(members));
    ValueBegins(members.value, s, j);
    SpaceThere(members.colon, s, i);
    SpaceThere(members.middle, s, t + 1);
  }

  /** Where the first value of a list of members stands, and what stands behind it. */
  lemma MemberStands(members: Members, s: seq<byte>, i: nat, depth: int, m: Mode)
    requires AreShapedMembers(members) && At(s, i, AfterName(members))
    ensures i <= |s|
    ensures var t := SkipWhitespace(s, i);
      var j := i + |members.colon| + 1 + |members.middle|;
      var e := j + |Text(members.value)|;
      var k := e + |members.after|;
      && t < |s| && s[t] == COLON && SkipWhitespace(s, t + 1) == j < |s|
      && ValueAt(s, t + 1, depth, m) == ValueFrom(s, j, depth, m)
      && At(s, j, Text(members.value)) && e <= |s| && ByteAt(s, e) == Some(MemberNext(members))
      && SkipWhitespace(s, e) == k < |s| && s[k] == (if members.Member? then COMMA else CLOSE_BRACE)
      && (members.Member? ==> At(s, k + 1, MembersText(members.rest)))
  {
    hide At, ValueFrom, Text, IsShaped, AfterName, AfterMember, MembersText, IsSpace, IsName, SkipWhitespace;
    ColonThere(members, s, i);
    MemberSplit(members, s, i + |members.colon| + 1 + |members.middle|);
  }

  lemma AfterNameLength(members: Members, s: seq<byte>, i: nat)
    requires AreShapedMembers(members) && At(s, i, AfterName(members))
    ensures |AfterName(members)| ==
            |members.colon| + 1 + |members.middle| + |Text(members.value)| + |members.after|
            + if members.Member? then 1 + |MembersText(members.rest)| else 1
  {
    hide At, Text, MembersText;
  }

  /** The colon and the value of the first member, and the token behind it. */
  predicate FieldStands(members: Members, s: seq<byte>, i: nat, depth: int, m: Mode)
    requires i <= |s|
  {
    var t := SkipWhitespace(s, i);
    && t < |s| && s[t] == COLON
    && var v := ValueAt(s, t + 1, depth, m);
    && v.Done? && v.value == ValueOf(members.value, m)
    && var k := SkipWhitespace(s, v.next);
    && k == i + |members.colon| + 1 + |members.middle| + |Text(members.value)| + |members.after|
    && k < |s| && s[k] == (if members.Member? then COMMA else CLOSE_BRACE)
    && (members.Member? ==> At(s, k + 1, MembersText(members.rest)))
    && i + |AfterName(members)| == k + (if members.Member? then 1 + |MembersText(members.rest)| else 1)
  }

  lemma {:induction false} FieldThere(members: Members, s: seq<byte>, i: nat, depth: int, m: Mode)
    requires AreShapedMembers(members) && MemberNumbersTaken(members, i, m)
    requires depth + MembersNesting(members) <= MAX_DEPTH
    requires At(s, i, AfterName(members))
    ensures i <= |s| && FieldStands(members, s, i, depth, m)
    decreases members, 0
  {
    hide At, ValueFrom, Text, IsShaped, NumbersTaken, Nesting, ValueOf, AfterName, AfterMember, IsSpace, IsStringBody,
         MembersText, SkipWhitespace, IsName, NameText, FirstNameEnd;
    MemberStands(members, s, i, depth, m);
    AfterNameLength(members, s, i);
    var j := i + |members.colon| + 1 + |members.middle|;
    TakenThere(members.value, s, j, depth, m);
  }

  lemma {:induction false} MembersThere(members: Members, s: seq<byte>, i: nat, depth: int, m: Mode)
    requires AreShapedMembers(members) && MemberNumbersTaken(members, i, m)
    requires depth + MembersNesting(members) <= MAX_DEPTH
    requires At(s, i, AfterName(members))
    ensures i <= |s|
    ensures ValueMachines.Members(s, i, NameOf(members.name), depth, m) ==
            Done(FieldsOf(members, m), i + |AfterName(members)|)
    decreases members, 1
  {
    hide At, ValueAt, IsShaped, NumbersTaken, Nesting, ValueOf, StringOf, AfterName, ValueMachines.Members, KeyAt,
         MembersText, Text, AfterMember, IsSpace, IsName, NameText, IsStringBody, SkipWhitespace;
    FieldThere(members, s, i, depth, m);
    MembersUnfold(s, i, NameOf(members.name), depth, m);
    if members.Member? {
      var p := SkipWhitespace(s, ValueAt(s, SkipWhitespace(s, i) + 1, depth, m).next) + 1;
      KeyThere(members.rest, s, p);
      MembersThere(members.rest, s, KeyAt(s, p).next, depth, m);
    }
  }

  /** A name behind a comma, null for the empty name. */
  lemma KeyThere(members: Members, s: seq<byte>, p: nat)
    requires AreShapedMembers(members) && At(s, p, MembersText(members))
    ensures p <= |s| && KeyAt(s, p) == Ok(NameOf(members.name), p + |members.before| + |NameText(members.name)|)
    ensures At(s, KeyAt(s, p).next, AfterName(members))
    ensures KeyAt(s, p).next + |AfterName(members)| == p + |MembersText(members)|
  {
    hide At, Decode, RawEnd, AfterName, StringOf, MembersText, IsStringBody;
    NameThere(members, s, p);
  }

  /** `Members` one field at a time, where that field is there. */
  lemma MembersUnfold(s: seq<byte>, i: nat, key: seq<byte>, depth: int, m: Mode)
    requires i <= |s|
    ensures var t := SkipWhitespace(s, i);
      t < |s| && s[t] == COLON && ValueAt(s, t + 1, depth, m).Done? ==>
        var first := ValueAt(s, t + 1, depth, m);
        var k := SkipWhitespace(s, first.next);
        k < |s| ==>
          && (s[k] == CLOSE_BRACE ==>
                ValueMachines.Members(s, i, key, depth, m) == Done([(key, first.value)], k + 1))
          && (s[k] == COMMA && MembersAfterComma(s, k + 1, depth, m).Done? ==>
                var rest := MembersAfterComma(s, k + 1, depth, m);
                ValueMachines.Members(s, i, key, depth, m) == Done([(key, first.value)] + rest.value, rest.next))
  {
    hide ValueAt, MembersAfterComma;
  }

  /** The bytes from the first value of a list of members on. */
  lemma MemberSplit(members: Members, s: seq<byte>, j: nat)
    requires AreShapedMembers(members)
    requires At(s, j, Text(members.value) + (members.after + AfterMember(members)))
    ensures At(s, j, Text(members.value))
    ensures var e := j + |Text(members.value)|;
      var k := e + |members.after|;
      && k < |s| && IsDelimiter(s[e]) && s[e] == MemberNext(members) && SkipWhitespace(s, e) == k
      && s[k] == (if members.Member? then COMMA else CLOSE_BRACE)
      && (members.Member? ==> At(s, k + 1, MembersText(members.rest)))
      && |AfterMember(members)| == if members.Member? then 1 + |MembersText(members.rest)| else 1
  {
    hide At, Text, IsShaped, MembersText;
    var e := j + |Text(members.value)|;
    var k := e + |members.after|;
    AtConcat(s, j, Text(members.value), members.after + AfterMember(members));
    DelimiterBehind(members.after, AfterMember(members), s, e);
    AtConcat(s, e, members.after, AfterMember(members));
    AtIndex(s, k, AfterMember(members), 0);
    SpaceThere(members.after, s, e);
    if members.Member? {
      LiteralThere(s, k, COMMA, MembersText(members.rest));
    }
  }

  lemma MemberSpaces(members: Members, s: seq<byte>, n: nat)
    requires AreShapedMembers(members) && At(s, n, AfterName(members))
    ensures var t := n + |members.colon|;
      var j := t + 1 + |members.middle|;
      var e := j + |Text(members.value)|;
      var k := e + |members.after|;
      && At(s, n, members.colon) && t < |s| && s[t] == COLON && At(s, t + 1, members.middle)
      && At(s, j, Text(members.value)) && At(s, e, members.after)
      && k < |s| && s[k] == (if members.Member? then COMMA else CLOSE_BRACE)
      && (members.Member? ==> At(s, k + 1, MembersText(members.rest)))
      && |AfterName(members)| == k - n + (if members.Member? then 1 + |MembersText(members.rest)| else 1)
  {
    hide At, Text, IsShaped, AfterMember, MembersText;
    var t := n + |members.colon|;
    var value := Text(members.value) + (members.after + AfterMember(members));
    AtConcat(s, n, members.colon, [COLON] + (members.middle + value));
    LiteralThere(s, t, COLON, members.middle + value);
    AtConcat(s, t + 1, members.middle, value);
    var j := t + 1 + |members.middle|;
    AtConcat(s, j, Text(members.value), members.after + AfterMember(members));
    AtConcat(s, j + |Text(members.value)|, members.after, AfterMember(members));
    MemberSplit(members, s, j);
  }

  // ---------- Well-formed documents ----------

  /** A well-formed document takes neither liberty, and no other shaped document is well-formed. */
  lemma {:induction false} WellFormedIff(d: Doc)
    ensures WellFormed(d) <==> IsShaped(d) && IsStrict(d)
    decreases d, 1
  {
    hide IsStringBody, IsNumberText, IsNumberRun, IsSpace;
    match d {
      case DNumber(text) =>
        if IsNumberText(text) {
          ValidIsRun(text);
        }
      case DArray(items) => WellFormedItemsIff(items);
      case DObject(members) => WellFormedMembersIff(members);
      case _ =>
    }
  }

  lemma {:induction false} WellFormedItemsIff(items: Items)
    ensures WellFormedItems(items) <==> AreShapedItems(items) && AreStrictItems(items)
    decreases items, 0
  {
    hide IsSpace, WellFormed, IsShaped, IsStrict;
    WellFormedIff(items.value);
    if items.Item? {
      WellFormedItemsIff(items.rest);
    }
  }

  lemma {:induction false} WellFormedMembersIff(members: Members)
    ensures WellFormedMembers(members) <==> AreShapedMembers(members) && AreStrictMembers(members)
    decreases members, 0
  {
    hide IsSpace, WellFormed, IsShaped, IsStrict, IsStringBody;
    WellFormedIff(members.value);
    if members.Member? {
      WellFormedMembersIff(members.rest);
    }
  }

  /** A number in front of a delimiter that can be skipped is taken, and so is a document of such numbers. */
  lemma {:induction false} SkippableIsTaken(d: Doc, j: nat, next: Option<byte>, m: Mode)
    requires WellFormed(d) && IsSkippable(d, m)
    requires d.DNumber? ==> next.Some? && IsDelimiter(next.value)
    ensures IsTaken(d, j, next, m)
    decreases d, 1
  {
    hide IsNumberText, IsSkippableNumber, IsTakenNumber, WellFormed, WellFormedItems, WellFormedMembers, IsShaped;
    WellFormedIff(d);
    WellFormedParts(d);
    match d {
      case DNumber(text) => SkippableNumberIsTaken(text, j, next, m);
      case DArray(items) => SkippableItemsTaken(items, j + 1, m);
      case DObject(members) => SkippableMembersTaken(members, FirstNameEnd(members, j + 1), m);
      case _ =>
    }
  }

  lemma WellFormedParts(d: Doc)
    requires WellFormed(d)
    ensures d.DNumber? ==> IsNumberText(d.text)
    ensures d.DArray? ==> WellFormedItems(d.items)
    ensures d.DObject? ==> WellFormedMembers(d.members)
  {
  }

  lemma {:induction false} SkippableItemsTaken(items: Items, i: nat, m: Mode)
    requires WellFormedItems(items) && AreSkippableItems(items, m)
    ensures ItemNumbersTaken(items, i, m)
    decreases items, 0
  {
    hide WellFormed, IsShaped, IsSkippable, NumbersTaken;
    SkippableIsTaken(items.value, i + |items.before|, Some(ItemNext(items)), m);
    if items.Item? {
      SkippableItemsTaken(items.rest, i + |items.before| + |Text(items.value)| + |items.after| + 1, m);
    }
  }

  lemma {:induction false} SkippableMembersTaken(members: Members, n: nat, m: Mode)
    requires WellFormedMembers(members) && AreSkippableMembers(members, m)
    ensures MemberNumbersTaken(members, n, m)
    decreases members, 0
  {
    hide WellFormed, IsShaped, IsSkippable, NumbersTaken, IsStringBody;
    SkippableIsTaken(members.value, n + |members.colon| + 1 + |members.middle|, Some(MemberNext(members)), m);
    if members.Member? {
      var k := n + |members.colon| + 1 + |members.middle| + |Text(members.value)| + |members.after|;
      SkippableMembersTaken(members.rest, FirstNameEnd(members.rest, k + 1), m);
    }
  }

  /**
   * A well-formed document, numbers that can be skipped, nested within the limit: skipping it and reading it end
   * exactly behind it, and reading gives its value.
   */
  lemma ValueThere(d: Doc, s: seq<byte>, j: nat, depth: int, m: Mode)
    requires WellFormed(d) && IsSkippable(d, m) && depth + Nesting(d) <= MAX_DEPTH
    requires At(s, j, Text(d))
    requires var e := j + |Text(d)|; d.DNumber? ==> e < |s| && IsDelimiter(s[e])
    ensures j < |s| && ValueFrom(s, j, depth, m) == Done(ValueOf(d, m), j + |Text(d)|)
  {
    hide At, Text, WellFormed, IsSkippable, Nesting, IsTaken, ValueFrom, ValueOf;
    SkippableIsTaken(d, j, ByteAt(s, j + |Text(d)|), m);
    TakenThere(d, s, j, depth, m);
  }
}

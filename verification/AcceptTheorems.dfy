/** What is taken, exactly: the converse of `DocTheorems`, and where it is more or less than JSON. */
module AcceptTheorems {
  import opened Bytes
  import opened Decimals
  import opened IntMachines
  import opened StringMachines
  import opened FloatMachines
  import opened NumberTheorems
  import opened NumberSkips
  import opened IterCore
  import opened ValueMachines
  import opened Grammar
  import opened NumberForms
  import opened DocTheorems

  // ---------- Numbers ----------

  /** The run of number characters behind a value that was taken for a number. */
  lemma TakenNumber(s: seq<byte>, j: nat, m: Mode)
    requires j < |s| && StartsNumber(s[j]) && NumberValueAt(s, j, m).Done?
    ensures var r := NumberValueAt(s, j, m);
      && j < r.next <= |s| && IsTakenNumber(s[j..r.next], j, ByteAt(s, r.next), m)
      && r.value == Seen(Number(s[j..r.next]), m)
  {
    hide SkipNumberAt, TakenBySkip, NumberEnd, RoomAt, BufferEnd;
    var e := NumberValueAt(s, j, m).next;
    if m.visitor.Skipping? {
      SkipNumberTaken(s, j, BufferEnd(s, m.chunks, j), m.parsers);
      RoomIs(s, j, s[j..e], m);
    }
    assert e == NumberEnd(s, j);
    assert forall k :: 0 <= k < e - j ==> s[j..e][k] == s[j + k];
  }

  // ---------- Strings and whitespace ----------

  /** What was decoded or validated between two quotes is a string body that stands for the same string. */
  lemma TakenString(s: seq<byte>, i: nat)
    requires RawEnd(s, i).Some?
    ensures var end := RawEnd(s, i).value;
      && i < end <= |s| && IsStringBody(s[i..end - 1]) && At(s, i, s[i..end - 1] + [QUOTE])
      && Decode(s, i) == Ok(StringOf(s[i..end - 1]), end)
  {
    hide Decode, RawEnd, At;
    RawEndIffDecode(s, i);
    var end := RawEnd(s, i).value;
    var t := s[i..end - 1] + [QUOTE];
    assert t == s[i..end] && t == t[0..|t|];
    AtItself(s, i, end);
    AtItself(t, 0, |t|);
    RawEndLocal(s, i, t, 0);
    DecodeLocal(s, i, t, 0);
  }

  lemma AtItself(s: seq<byte>, i: nat, end: nat)
    requires i <= end <= |s|
    ensures At(s, i, s[i..end])
  {
  }

  lemma SpaceBetween(s: seq<byte>, i: nat)
    requires i <= |s|
    ensures IsSpace(s[i..SkipWhitespace(s, i)]) && At(s, i, s[i..SkipWhitespace(s, i)])
  {
  }

  // ---------- Values ----------

  /** The document `d` stands in `s` from `j` to `e`, its numbers are taken, and it nests within the limit. */
  predicate StandsAt(d: Doc, s: seq<byte>, j: nat, e: nat, depth: int, m: Mode) {
    && At(s, j, Text(d)) && e == j + |Text(d)| && IsTaken(d, j, ByteAt(s, e), m) && depth + Nesting(d) <= MAX_DEPTH
  }

  /** The document that was taken at `j`. */
  lemma {:induction false} TakenDoc(s: seq<byte>, j: nat, depth: int, m: Mode) returns (d: Doc)
    requires j < |s| && depth <= MAX_DEPTH && ValueFrom(s, j, depth, m).Done?
    ensures StandsAt(d, s, j, ValueFrom(s, j, depth, m).next, depth, m)
    ensures ValueFrom(s, j, depth, m).value == ValueOf(d, m)
    decreases |s| - j, 1
  {
    hide At, Decode, RawEnd, ArrayAt, ObjectAt, NumberValueAt, IsTakenNumber, IsStringBody, IsSpace, StringOf;
    var c := s[j];
    if c == QUOTE {
      d := TakenStringDoc(s, j, m);
    } else if c == LOWER_N || c == LOWER_T || c == LOWER_F {
      AtByte(s, j, c);
      AtConcat(s, j, [c], if c == LOWER_N then ULL else if c == LOWER_T then RUE else ALSE);
      d := if c == LOWER_N then DNull else if c == LOWER_T then DTrue else DFalse;
    } else if StartsNumber(c) {
      TakenNumber(s, j, m);
      d := DNumber(s[j..NumberValueAt(s, j, m).next]);
      TakenIsRun(d.text, j, ByteAt(s, NumberValueAt(s, j, m).next), m);
      AtItself(s, j, NumberValueAt(s, j, m).next);
    } else if c == OPEN_BRACKET {
      d := TakenArray(s, j, depth, m);
    } else {
      d := TakenObject(s, j, depth, m);
    }
  }

  lemma TakenIsRun(text: seq<byte>, j: nat, next: Option<byte>, m: Mode)
    requires IsTakenNumber(text, j, next, m)
    ensures IsNumberRun(text)
  {
  }

  lemma TakenStringDoc(s: seq<byte>, j: nat, m: Mode) returns (d: Doc)
    requires j < |s| && s[j] == QUOTE && StringAt(s, j + 1, m).Done?
    ensures d.DString? && IsStringBody(d.body) && At(s, j, Text(d)) && StringAt(s, j + 1, m).next == j + |Text(d)|
    ensures StringAt(s, j + 1, m).value == Seen(Str(StringOf(d.body)), m)
  {
    hide At, Decode, RawEnd, IsStringBody, StringOf;
    RawEndIffDecode(s, j + 1);
    TakenString(s, j + 1);
    var end := RawEnd(s, j + 1).value;
    d := DString(s[j + 1..end - 1]);
    AtByte(s, j, QUOTE);
    AtConcat(s, j, [QUOTE], d.body + [QUOTE]);
  }

  /** Opening bracket, whitespace, closing bracket. */
  lemma EmptyStands(s: seq<byte>, j: nat, open: byte, close: byte)
    requires j < |s| && s[j] == open
    requires var k := SkipWhitespace(s, j + 1); k < |s| && s[k] == close
    ensures var k := SkipWhitespace(s, j + 1);
      var space := s[j + 1..k];
      IsSpace(space) && At(s, j, [open] + (space + [close])) && k + 1 == j + |[open] + (space + [close])|
  {
    hide At, IsSpace;
    var k := SkipWhitespace(s, j + 1);
    SpaceBetween(s, j + 1);
    AtByte(s, j, open);
    AtByte(s, k, close);
    AtConcat(s, j + 1, s[j + 1..k], [close]);
    AtConcat(s, j, [open], s[j + 1..k] + [close]);
  }

  lemma {:induction false} TakenArray(s: seq<byte>, j: nat, depth: int, m: Mode) returns (d: Doc)
    requires j < |s| && s[j] == OPEN_BRACKET && ArrayAt(s, j, depth, m).Done?
    ensures d.DArray? || d.DEmptyArray?
    ensures StandsAt(d, s, j, ArrayAt(s, j, depth, m).next, depth, m)
    ensures Seen(Arr(ArrayAt(s, j, depth, m).value), m) == ValueOf(d, m)
    decreases |s| - j, 0
  {
    hide At, Elements, ItemsText, AreShapedItems, ItemNumbersTaken, IsSpace;
    SkipNothing(s, j);
    var k := SkipWhitespace(s, j + 1);
    if s[k] == CLOSE_BRACKET {
      EmptyStands(s, j, OPEN_BRACKET, CLOSE_BRACKET);
      d := DEmptyArray(s[j + 1..k]);
    } else {
      ElementsSkipSpace(s, j + 1, depth + 1, m);
      var items := TakenItems(s, j + 1, depth + 1, m);
      d := DArray(items);
      AtByte(s, j, OPEN_BRACKET);
      AtConcat(s, j, [OPEN_BRACKET], ItemsText(items));
    }
  }

  lemma {:induction false} TakenItems(s: seq<byte>, i: nat, depth: int, m: Mode) returns (items: Items)
    requires i <= |s| && depth <= MAX_DEPTH && Elements(s, i, depth, m).Done?
    ensures AreShapedItems(items) && ItemNumbersTaken(items, i, m) && depth + ItemsNesting(items) <= MAX_DEPTH
    ensures At(s, i, ItemsText(items)) && Elements(s, i, depth, m).next == i + |ItemsText(items)|
    ensures Elements(s, i, depth, m).value == ItemValues(items, m)
    decreases |s| - i, 2
  {
    hide At, ValueFrom, IsShaped, NumbersTaken, Text, Nesting, ValueOf, IsSpace, ItemsText, SkipWhitespace, Elements;
    ElementsParts(s, i, depth, m);
    var j := SkipWhitespace(s, i);
    var e := ValueFrom(s, j, depth, m).next;
    var k := SkipWhitespace(s, e);
    var d := TakenDoc(s, j, depth, m);
    if s[k] == COMMA {
      var rest := TakenItems(s, k + 1, depth, m);
      items := Item(s[i..j], d, s[e..k], rest);
    } else {
      items := LastItem(s[i..j], d, s[e..k]);
    }
    SpaceBetween(s, i);
    SpaceBetween(s, e);
    ItemsStand(items, s, i, j, e, k);
  }

  /** The parts of a list of elements that starts at `i`. */
  predicate HasElementsParts(s: seq<byte>, i: nat, depth: int, m: Mode, r: Scan<seq<Value>>)
    requires i <= |s|
  {
    var j := SkipWhitespace(s, i);
    && j < |s| && ValueFrom(s, j, depth, m).Done?
    && var v := ValueFrom(s, j, depth, m);
    && j <= v.next <= |s|
    && var k := SkipWhitespace(s, v.next);
    && k < |s| && r.Done?
    && if s[k] == COMMA
       then && Elements(s, k + 1, depth, m).Done? && r.next == Elements(s, k + 1, depth, m).next
            && r.value == [v.value] + Elements(s, k + 1, depth, m).value
       else s[k] == CLOSE_BRACKET && r == Done([v.value], k + 1)
  }

  lemma ElementsParts(s: seq<byte>, i: nat, depth: int, m: Mode)
    requires i <= |s| && Elements(s, i, depth, m).Done?
    ensures HasElementsParts(s, i, depth, m, Elements(s, i, depth, m))
  {
    hide ValueFrom;
  }

  /** The pieces of a list of elements stand one behind the other. */
  lemma ItemsStand(items: Items, s: seq<byte>, i: nat, j: nat, e: nat, k: nat)
    requires i <= j <= e <= k < |s| && items.before == s[i..j] && items.after == s[e..k]
    requires At(s, j, Text(items.value)) && e == j + |Text(items.value)|
    requires s[k] == (if items.Item? then COMMA else CLOSE_BRACKET)
    requires items.Item? ==> At(s, k + 1, ItemsText(items.rest))
    ensures At(s, i, ItemsText(items))
    ensures i + |ItemsText(items)| == k + 1 + if items.Item? then |ItemsText(items.rest)| else 0
  {
    hide At, Text;
    AtByte(s, k, s[k]);
    if items.Item? {
      AtConcat(s, k, [COMMA], ItemsText(items.rest));
    }
    AtItself(s, e, k);
    AtItself(s, i, j);
    ItemsTextIs(items);
    AtConcat(s, e, items.after, if items.Item? then [COMMA] + ItemsText(items.rest) else [CLOSE_BRACKET]);
    AtConcat(s, j, Text(items.value), AfterItem(items));
    AtConcat(s, i, items.before, Text(items.value) + AfterItem(items));
  }

  lemma {:induction false} TakenObject(s: seq<byte>, j: nat, depth: int, m: Mode) returns (d: Doc)
    requires j < |s| && s[j] == OPEN_BRACE && ObjectAt(s, j, depth, m).Done?
    ensures d.DObject? || d.DEmptyObject?
    ensures StandsAt(d, s, j, ObjectAt(s, j, depth, m).next, depth, m)
    ensures Seen(Obj(FieldMap(ObjectAt(s, j, depth, m).value)), m) == ValueOf(d, m)
    decreases |s| - j, 0
  {
    hide At, ValueMachines.Members, MembersText, AreShapedMembers, MemberNumbersTaken, IsSpace, Decode, RawEnd, KeyAt,
         FirstNameEnd, MembersNesting, FieldsOf;
    SkipNothing(s, j);
    var k := SkipWhitespace(s, j + 1);
    if s[k] == CLOSE_BRACE {
      EmptyStands(s, j, OPEN_BRACE, CLOSE_BRACE);
      d := DEmptyObject(s[j + 1..k]);
    } else {
      QuotedKey(s, j + 1);
      var members := TakenMembers(s, j + 1, depth + 1, m);
      d := DObject(members);
      AtByte(s, j, OPEN_BRACE);
      AtConcat(s, j, [OPEN_BRACE], MembersText(members));
    }
  }

  lemma QuotedKey(s: seq<byte>, p: nat)
    requires p <= |s|
    ensures var k := SkipWhitespace(s, p);
      k < |s| && s[k] == QUOTE ==> KeyAt(s, p) == Decode(s, k + 1)
  {
    hide Decode, RawEnd;
    RawEndIffDecode(s, SkipWhitespace(s, p) + 1);
  }

  /** The parts of a list of members behind its first name. */
  predicate HasMembersParts(s: seq<byte>, n: nat, key: seq<byte>, depth: int, m: Mode, r: Scan<seq<Field>>)
    requires n <= |s|
  {
    var t := SkipWhitespace(s, n);
    && t < |s| && s[t] == COLON
    && var j := SkipWhitespace(s, t + 1);
    && j < |s| && ValueFrom(s, j, depth, m).Done?
    && var v := ValueFrom(s, j, depth, m);
    && j <= v.next <= |s|
    && var z := SkipWhitespace(s, v.next);
    && z < |s| && r.Done? && v.next < r.next && z < r.next
    && if s[z] == COMMA
       then && MembersAfterComma(s, z + 1, depth, m).Done? && r.next == MembersAfterComma(s, z + 1, depth, m).next
            && r.value == [(key, v.value)] + MembersAfterComma(s, z + 1, depth, m).value
       else s[z] == CLOSE_BRACE && r == Done([(key, v.value)], z + 1)
  }

  lemma MembersParts(s: seq<byte>, n: nat, key: seq<byte>, depth: int, m: Mode)
    requires n <= |s| && ValueMachines.Members(s, n, key, depth, m).Done?
    ensures HasMembersParts(s, n, key, depth, m, ValueMachines.Members(s, n, key, depth, m))
  {
    hide ValueFrom, MembersAfterComma;
  }

  /** The name behind `p`, quoted or null. */
  lemma TakenName(s: seq<byte>, p: nat) returns (name: Name)
    requires p <= |s| && KeyAt(s, p).Ok?
    ensures IsName(name) && NameOf(name) == KeyAt(s, p).value
    ensures var k := SkipWhitespace(s, p);
      k < |s| && At(s, k, NameText(name)) && KeyAt(s, p).next == k + |NameText(name)| && (s[k] == QUOTE ==> name.Body?)
  {
    hide At, Decode, RawEnd, IsStringBody, StringOf;
    var k := SkipWhitespace(s, p);
    AtByte(s, k, s[k]);
    if s[k] == QUOTE {
      TakenString(s, k + 1);
      name := Body(s[k + 1..KeyAt(s, p).next - 1]);
      AtConcat(s, k, [QUOTE], name.text + [QUOTE]);
    } else {
      name := NullName;
      AtConcat(s, k, [LOWER_N], ULL);
    }
  }

  /** The members whose first name stands behind `p`. */
  lemma {:induction false} TakenMembers(s: seq<byte>, p: nat, depth: int, m: Mode) returns (members: Grammar.Members)
    requires p <= |s| && depth <= MAX_DEPTH && MembersAfterComma(s, p, depth, m).Done?
    ensures AreShapedMembers(members) && MemberNumbersTaken(members, FirstNameEnd(members, p), m)
    ensures depth + MembersNesting(members) <= MAX_DEPTH
    ensures At(s, p, MembersText(members))
    ensures MembersAfterComma(s, p, depth, m) == Done(FieldsOf(members, m), p + |MembersText(members)|)
    ensures var k := SkipWhitespace(s, p); k < |s| && s[k] == QUOTE ==> members.name.Body?
    decreases |s| - p, 4
  {
    hide At, IsSpace, IsStringBody, StringOf, AfterName, ValueMachines.Members, AreShapedMembers, MemberNumbersTaken,
         FieldsOf, KeyAt, NameText, NameOf, IsName;
    var k := SkipWhitespace(s, p);
    var name := TakenName(s, p);
    SpaceBetween(s, p);
    members := TakenAfterName(s, KeyAt(s, p).next, s[p..k], name, depth, m);
    AtConcat(s, k, NameText(name), AfterName(members));
    AtConcat(s, p, members.before, NameText(name) + AfterName(members));
  }

  /** The same from the end of that name on. */
  lemma {:induction false} TakenAfterName(s: seq<byte>, n: nat, before: seq<byte>, name: Name, depth: int, m: Mode)
    returns (members: Grammar.Members)
    requires n <= |s| && depth <= MAX_DEPTH && IsSpace(before) && IsName(name)
    requires ValueMachines.Members(s, n, NameOf(name), depth, m).Done?
    ensures members.before == before && members.name == name
    ensures AreShapedMembers(members) && MemberNumbersTaken(members, n, m)
    ensures depth + MembersNesting(members) <= MAX_DEPTH
    ensures At(s, n, AfterName(members))
    ensures ValueMachines.Members(s, n, NameOf(name), depth, m) == Done(FieldsOf(members, m), n + |AfterName(members)|)
    decreases |s| - n, 3
  {
    hide At, ValueFrom, IsShaped, NumbersTaken, Text, Nesting, ValueOf, IsSpace, MembersAfterComma,
         NameText, NameOf, IsName, MembersText, AfterName, ValueMachines.Members, SkipWhitespace;
    MembersParts(s, n, NameOf(name), depth, m);
    var t := SkipWhitespace(s, n);
    var j := SkipWhitespace(s, t + 1);
    var e := ValueFrom(s, j, depth, m).next;
    var z := SkipWhitespace(s, e);
    var d := TakenDoc(s, j, depth, m);
    if s[z] == COMMA {
      var rest := TakenMembers(s, z + 1, depth, m);
      members := Member(before, name, s[n..t], s[t + 1..j], d, s[e..z], rest);
    } else {
      members := LastMember(before, name, s[n..t], s[t + 1..j], d, s[e..z]);
    }
    SpaceBetween(s, n);
    SpaceBetween(s, t + 1);
    SpaceBetween(s, e);
    AfterNameStands(members, s, n, t, j, e, z);
  }

  /** The pieces of a list of members behind its first name stand one behind the other. */
  lemma AfterNameStands(members: Grammar.Members, s: seq<byte>, n: nat, t: nat, j: nat, e: nat, z: nat)
    requires n <= t < j <= e <= z < |s|
    requires members.colon == s[n..t] && s[t] == COLON && members.middle == s[t + 1..j] && members.after == s[e..z]
    requires At(s, j, Text(members.value)) && e == j + |Text(members.value)|
    requires s[z] == (if members.Member? then COMMA else CLOSE_BRACE)
    requires members.Member? ==> At(s, z + 1, MembersText(members.rest))
    ensures At(s, n, AfterName(members))
    ensures n + |AfterName(members)| == z + (if members.Member? then 1 + |MembersText(members.rest)| else 1)
  {
    hide At, Text, MembersText;
    AtByte(s, z, s[z]);
    if members.Member? {
      AtConcat(s, z, [COMMA], MembersText(members.rest));
    }
    AtItself(s, e, z);
    AtItself(s, t + 1, j);
    AtItself(s, n, t);
    AtConcat(s, e, members.after, AfterMember(members));
    var value := Text(members.value) + (members.after + AfterMember(members));
    AtConcat(s, j, Text(members.value), members.after + AfterMember(members));
    AtConcat(s, t + 1, members.middle, value);
    AtByte(s, t, COLON);
    AtConcat(s, t, [COLON], members.middle + value);
    AtConcat(s, n, members.colon, [COLON] + (members.middle + value));
  }

  // ---------- The text decides the document ----------

  /** Where a document may stand: a number is not followed by a number character. */
  predicate Placed(d: Doc, s: seq<byte>, j: nat) {
    && IsShaped(d) && At(s, j, Text(d))
    && (d.DNumber? && j + |Text(d)| < |s| ==> !IsNumberChar(s[j + |Text(d)|]))
  }

  lemma SamePiece(s: seq<byte>, i: nat, a: seq<byte>, b: seq<byte>)
    requires At(s, i, a) && At(s, i, b) && |a| == |b|
    ensures a == b
  {
  }

  /** The first byte of a document tells its kind. */
  lemma KindOf(d: Doc, s: seq<byte>, j: nat)
    requires IsShaped(d) && At(s, j, Text(d))
    ensures j < |s|
    ensures d.DNull? <==> s[j] == LOWER_N
    ensures d.DTrue? <==> s[j] == LOWER_T
    ensures d.DFalse? <==> s[j] == LOWER_F
    ensures d.DNumber? <==> StartsNumber(s[j])
    ensures d.DString? <==> s[j] == QUOTE
    ensures d.DArray? || d.DEmptyArray? <==> s[j] == OPEN_BRACKET
    ensures d.DObject? || d.DEmptyObject? <==> s[j] == OPEN_BRACE
  {
    hide At, IsStringBody, IsSpace, AreShapedItems, AreShapedMembers, ItemsText, MembersText;
    ValueBegins(d, s, j);
    AtIndex(s, j, Text(d), 0);
  }

  /** Two documents at one place are the same. */
  lemma {:induction false} OneDoc(d: Doc, d': Doc, s: seq<byte>, j: nat)
    requires Placed(d, s, j) && Placed(d', s, j)
    ensures d == d'
    decreases d, 1
  {
    hide At, IsStringBody, IsNumberRun, IsSpace, ItemsText, MembersText, NumberEnd;
    KindOf(d, s, j);
    KindOf(d', s, j);
    match d {
      case DNumber(text) =>
        RunThere(text, s, j);
        RunThere(d'.text, s, j);
      case DString(body) =>
        OneQuoted(body, d'.body, s, j);
      case DEmptyArray(_) => OneArray(d, d', s, j);
      case DArray(_) => OneArray(d, d', s, j);
      case DEmptyObject(_) => OneObject(d, d', s, j);
      case DObject(_) => OneObject(d, d', s, j);
      case _ =>
    }
  }

  lemma OneQuoted(a: seq<byte>, b: seq<byte>, s: seq<byte>, j: nat)
    requires IsStringBody(a) && IsStringBody(b) && At(s, j, Quoted(a)) && At(s, j, Quoted(b))
    ensures a == b
  {
    hide At, IsStringBody, Decode, RawEnd;
    QuotedThere(a, s, j);
    QuotedThere(b, s, j);
    LiteralThere(s, j, QUOTE, a + [QUOTE]);
    LiteralThere(s, j, QUOTE, b + [QUOTE]);
    AtConcat(s, j + 1, a, [QUOTE]);
    AtConcat(s, j + 1, b, [QUOTE]);
    SamePiece(s, j + 1, a, b);
  }

  /** An empty container at `j` has its closing bracket behind the whitespace. */
  lemma EmptySpaceThere(space: seq<byte>, open: byte, close: byte, s: seq<byte>, j: nat)
    requires IsSpace(space) && !IsWhitespace(close) && At(s, j, [open] + (space + [close]))
    ensures j < |s| && SkipWhitespace(s, j + 1) == j + 1 + |space| < |s|
    ensures s[j + 1 + |space|] == close && At(s, j + 1, space)
  {
    hide At, IsSpace;
    EmptyThere(space, open, close, s, j);
    LiteralThere(s, j, open, space + [close]);
    AtConcat(s, j + 1, space, [close]);
  }

  lemma {:induction false} OneArray(d: Doc, d': Doc, s: seq<byte>, j: nat)
    requires Placed(d, s, j) && Placed(d', s, j)
    requires (d.DArray? || d.DEmptyArray?) && (d'.DArray? || d'.DEmptyArray?)
    ensures d == d'
    decreases d, 0
  {
    hide At, IsSpace, AreShapedItems, ItemsText;
    ArrayStarts(d, s, j);
    ArrayStarts(d', s, j);
    if d.DArray? {
      OneItems(d.items, d'.items, s, j + 1);
    } else {
      SamePiece(s, j + 1, d.space, d'.space);
    }
  }

  /** Behind the bracket stands whitespace, and what is behind that tells whether the array is empty. */
  lemma ArrayStarts(d: Doc, s: seq<byte>, j: nat)
    requires Placed(d, s, j) && (d.DArray? || d.DEmptyArray?)
    ensures j < |s| && SkipWhitespace(s, j + 1) < |s|
    ensures d.DEmptyArray? <==> s[SkipWhitespace(s, j + 1)] == CLOSE_BRACKET
    ensures d.DEmptyArray? ==> At(s, j + 1, d.space) && |d.space| == SkipWhitespace(s, j + 1) - j - 1
    ensures d.DArray? ==> At(s, j + 1, ItemsText(d.items))
  {
    hide At, IsSpace, AreShapedItems, ItemsText;
    if d.DArray? {
      LiteralThere(s, j, OPEN_BRACKET, ItemsText(d.items));
      ItemsBegin(d.items, s, j + 1);
    } else {
      EmptySpaceThere(d.space, OPEN_BRACKET, CLOSE_BRACKET, s, j);
    }
  }

  lemma {:induction false} OneItems(items: Items, items': Items, s: seq<byte>, i: nat)
    requires AreShapedItems(items) && At(s, i, ItemsText(items))
    requires AreShapedItems(items') && At(s, i, ItemsText(items'))
    ensures items == items'
    decreases items
  {
    hide At, Text, IsShaped, ItemsText, IsSpace, SkipWhitespace;
    ItemPlaced(items, s, i);
    ItemPlaced(items', s, i);
    OneDoc(items.value, items'.value, s, i + |items.before|);
    SamePiece(s, i, items.before, items'.before);
    SamePiece(s, i + |items.before| + |Text(items.value)|, items.after, items'.after);
    if items.Item? {
      OneItems(items.rest, items'.rest, s, i + |items.before| + |Text(items.value)| + |items.after| + 1);
    }
  }

  /** Where the pieces of a list stand. */
  lemma ItemPlaced(items: Items, s: seq<byte>, i: nat)
    requires AreShapedItems(items) && At(s, i, ItemsText(items))
    ensures i <= |s| && At(s, i, items.before) && |items.before| == SkipWhitespace(s, i) - i
    ensures var j := i + |items.before|;
      var e := j + |Text(items.value)|;
      var k := e + |items.after|;
      && Placed(items.value, s, j) && e <= |s| && At(s, e, items.after) && k == SkipWhitespace(s, e) < |s|
      && (items.Item? <==> s[k] == COMMA) && (items.Item? ==> At(s, k + 1, ItemsText(items.rest)))
  {
    hide At, Text, IsShaped, ItemsText, IsSpace, SkipWhitespace;
    ItemsBegin(items, s, i);
    ItemSpaces(items, s, i);
    ItemSplit(items, s, i + |items.before|);
  }

  lemma {:induction false} OneObject(d: Doc, d': Doc, s: seq<byte>, j: nat)
    requires Placed(d, s, j) && Placed(d', s, j)
    requires (d.DObject? || d.DEmptyObject?) && (d'.DObject? || d'.DEmptyObject?)
    ensures d == d'
    decreases d, 0
  {
    hide At, IsSpace, AreShapedMembers, MembersText;
    ObjectStarts(d, s, j);
    ObjectStarts(d', s, j);
    if d.DObject? {
      OneMembers(d.members, d'.members, s, j + 1);
    } else {
      SamePiece(s, j + 1, d.space, d'.space);
    }
  }

  lemma ObjectStarts(d: Doc, s: seq<byte>, j: nat)
    requires Placed(d, s, j) && (d.DObject? || d.DEmptyObject?)
    ensures j < |s| && SkipWhitespace(s, j + 1) < |s|
    ensures d.DEmptyObject? <==> s[SkipWhitespace(s, j + 1)] == CLOSE_BRACE
    ensures d.DEmptyObject? ==> At(s, j + 1, d.space) && |d.space| == SkipWhitespace(s, j + 1) - j - 1
    ensures d.DObject? ==> At(s, j + 1, MembersText(d.members))
  {
    hide At, IsSpace, AreShapedMembers, MembersText, AfterName, Decode, RawEnd;
    if d.DObject? {
      LiteralThere(s, j, OPEN_BRACE, MembersText(d.members));
      NameThere(d.members, s, j + 1);
    } else {
      EmptySpaceThere(d.space, OPEN_BRACE, CLOSE_BRACE, s, j);
    }
  }

  lemma {:induction false} OneMembers(a: Grammar.Members, b: Grammar.Members, s: seq<byte>, p: nat)
    requires AreShapedMembers(a) && AreShapedMembers(b) && At(s, p, MembersText(a)) && At(s, p, MembersText(b))
    ensures a == b
    decreases a
  {
    hide At, Text, IsShaped, MembersText, AfterName, IsSpace, IsName, SkipWhitespace, NameText;
    OneName(a, b, s, p);
    var n := p + |a.before| + |NameText(a.name)|;
    MemberPlaced(a, s, n);
    MemberPlaced(b, s, n);
    var t := n + |a.colon|;
    var j := t + 1 + |a.middle|;
    OneDoc(a.value, b.value, s, j);
    var e := j + |Text(a.value)|;
    SamePiece(s, n, a.colon, b.colon);
    SamePiece(s, t + 1, a.middle, b.middle);
    SamePiece(s, e, a.after, b.after);
    if a.Member? {
      OneMembers(a.rest, b.rest, s, e + |a.after| + 1);
    }
  }

  lemma OneName(a: Grammar.Members, b: Grammar.Members, s: seq<byte>, p: nat)
    requires AreShapedMembers(a) && AreShapedMembers(b) && At(s, p, MembersText(a)) && At(s, p, MembersText(b))
    ensures a.before == b.before && a.name == b.name
    ensures At(s, p + |a.before| + |NameText(a.name)|, AfterName(a))
    ensures At(s, p + |a.before| + |NameText(a.name)|, AfterName(b))
  {
    hide At, IsName, AfterName, NameText, SkipWhitespace, AreShapedMembers, MembersText;
    NamePlaced(a, s, p);
    NamePlaced(b, s, p);
    SamePiece(s, p, a.before, b.before);
    if a.name.Body? {
      BodyIsQuoted(a.name);
      BodyIsQuoted(b.name);
      OneQuoted(a.name.text, b.name.text, s, p + |a.before|);
    }
  }

  lemma BodyIsQuoted(name: Name)
    requires name.Body? && IsName(name)
    ensures IsStringBody(name.text) && NameText(name) == Quoted(name.text)
  {
  }

  /** Where the first name of a list of members stands. */
  lemma NamePlaced(members: Grammar.Members, s: seq<byte>, p: nat)
    requires AreShapedMembers(members) && At(s, p, MembersText(members))
    ensures IsName(members.name) && p <= |s| && At(s, p, members.before) && |members.before| == SkipWhitespace(s, p) - p
    ensures var k := p + |members.before|;
      && k < |s| && (members.name.Body? <==> s[k] == QUOTE) && At(s, k, NameText(members.name))
      && At(s, k + |NameText(members.name)|, AfterName(members))
  {
    hide At, IsShaped, AfterName, IsSpace, IsStringBody, Decode, RawEnd, StringOf;
    NameThere(members, s, p);
    AtConcat(s, p, members.before, NameText(members.name) + AfterName(members));
    AtConcat(s, p + |members.before|, NameText(members.name), AfterName(members));
  }

  /** Where the pieces of a list of members stand behind its first name. */
  lemma MemberPlaced(members: Grammar.Members, s: seq<byte>, n: nat)
    requires AreShapedMembers(members) && At(s, n, AfterName(members))
    ensures n <= |s| && At(s, n, members.colon)
    ensures var t := n + |members.colon|;
      var j := t + 1 + |members.middle|;
      var e := j + |Text(members.value)|;
      var k := e + |members.after|;
      && t == SkipWhitespace(s, n) < |s| && At(s, t + 1, members.middle) && j == SkipWhitespace(s, t + 1)
      && Placed(members.value, s, j) && e <= |s| && At(s, e, members.after) && k == SkipWhitespace(s, e) < |s|
      && (members.Member? <==> s[k] == COMMA) && (members.Member? ==> At(s, k + 1, MembersText(members.rest)))
  {
    hide At, Text, IsShaped, MembersText, AfterName, AfterMember, IsSpace, IsStringBody, SkipWhitespace;
    ColonThere(members, s, n);
    MemberSpaces(members, s, n);
    MemberSplit(members, s, n + |members.colon| + 1 + |members.middle|);
  }

  // ---------- The theorems ----------

  /**
   * Reading and skipping, from one buffer or from a reader however it splits the input: taken are exactly the
   * documents whose numbers are taken, nested within the limit, with their values.
   */
  lemma TakenIff(s: seq<byte>, j: nat, depth: int, m: Mode, v: Value, e: nat)
    requires j < |s| && depth <= MAX_DEPTH
    ensures ValueFrom(s, j, depth, m) == Done(v, e) <==>
            exists d :: StandsAt(d, s, j, e, depth, m) && v == ValueOf(d, m)
  {
    hide ValueFrom, At, Text, Nesting, ValueOf, IsTaken;
    if ValueFrom(s, j, depth, m) == Done(v, e) {
      var d := TakenDoc(s, j, depth, m);
    }
    if d :| StandsAt(d, s, j, e, depth, m) && v == ValueOf(d, m) {
      TakenThere(d, s, j, depth, m);
    }
  }

  /** A JSON text by the grammar of RFC 8259. */
  ghost predicate IsJson(t: seq<byte>) {
    exists d :: WellFormed(d) && Text(d) == t
  }

  /** The text of a shaped document is JSON exactly if no name is null and every number is one of RFC 8259. */
  lemma IsJsonIff(d: Doc)
    requires IsShaped(d)
    ensures IsJson(Text(d)) <==> IsStrict(d)
  {
    hide At, Text, WellFormed, IsShaped, IsStrict;
    WellFormedIff(d);
    var s := Text(d);
    AtItself(s, 0, |s|);
    assert s[0..|s|] == s;
    if d' :| WellFormed(d') && Text(d') == s {
      WellFormedIff(d');
      OneDoc(d, d', s, 0);
    }
  }

  /** No name is null, and no number has a plus sign, a dot or a superfluous zero behind its minus sign. */
  predicate HasNoExtras(d: Doc) {
    match d
    case DNumber(text) => !IsExtraForm(text)
    case DArray(items) => ItemsHaveNoExtras(items)
    case DObject(members) => MembersHaveNoExtras(members)
    case _ => true
  }

  predicate ItemsHaveNoExtras(items: Items) {
    HasNoExtras(items.value) && (items.Item? ==> ItemsHaveNoExtras(items.rest))
  }

  predicate MembersHaveNoExtras(members: Grammar.Members) {
    members.name.Body? && HasNoExtras(members.value) && (members.Member? ==> MembersHaveNoExtras(members.rest))
  }

  /** For what is skipped, these are all the liberties there are. */
  lemma {:induction false} StrictIffNoExtras(d: Doc, j: nat, next: Option<byte>, m: Mode)
    requires IsTaken(d, j, next, m) && m.visitor.Skipping? && AcceptsOnlyDecimals(m.parsers)
    ensures IsStrict(d) <==> HasNoExtras(d)
    decreases d, 1
  {
    hide IsStringBody, IsSpace, IsNumberText, IsNumberRun, IsExtraForm, TakenBySkip, AcceptsOnlyDecimals, RoomAt,
         FirstNameEnd;
    match d {
      case DNumber(text) => TakenIsNumberIff(text, next.value, RoomAt(m, j, |text|), m.parsers);
      case DArray(items) => ItemsStrictIff(items, j + 1, m);
      case DObject(members) => MembersStrictIff(members, FirstNameEnd(members, j + 1), m);
      case _ =>
    }
  }

  lemma {:induction false} ItemsStrictIff(items: Items, i: nat, m: Mode)
    requires AreShapedItems(items) && ItemNumbersTaken(items, i, m)
    requires m.visitor.Skipping? && AcceptsOnlyDecimals(m.parsers)
    ensures AreStrictItems(items) <==> ItemsHaveNoExtras(items)
    decreases items, 0
  {
    hide IsSpace, IsShaped, NumbersTaken, IsStrict, HasNoExtras, AcceptsOnlyDecimals;
    StrictIffNoExtras(items.value, i + |items.before|, Some(ItemNext(items)), m);
    if items.Item? {
      ItemsStrictIff(items.rest, i + |items.before| + |Text(items.value)| + |items.after| + 1, m);
    }
  }

  lemma {:induction false} MembersStrictIff(members: Grammar.Members, n: nat, m: Mode)
    requires AreShapedMembers(members) && MemberNumbersTaken(members, n, m)
    requires m.visitor.Skipping? && AcceptsOnlyDecimals(m.parsers)
    ensures AreStrictMembers(members) <==> MembersHaveNoExtras(members)
    decreases members, 0
  {
    hide IsSpace, IsShaped, NumbersTaken, IsStrict, HasNoExtras, AcceptsOnlyDecimals, IsStringBody;
    var j := n + |members.colon| + 1 + |members.middle|;
    StrictIffNoExtras(members.value, j, Some(MemberNext(members)), m);
    if members.Member? {
      MembersStrictIff(members.rest, FirstNameEnd(members.rest, j + |Text(members.value)| + |members.after| + 1), m);
    }
  }

  /**
   * What is read is JSON exactly if the document read has no null name and only numbers of RFC 8259; what is
   * skipped, exactly if it has no null name and no number of the extra forms.
   */
  lemma TakenIsJsonIff(s: seq<byte>, j: nat, depth: int, m: Mode) returns (d: Doc)
    requires j < |s| && depth <= MAX_DEPTH && ValueFrom(s, j, depth, m).Done?
    ensures StandsAt(d, s, j, ValueFrom(s, j, depth, m).next, depth, m)
    ensures var e := ValueFrom(s, j, depth, m).next;
      && j < e <= |s|
      && (IsJson(s[j..e]) <==> IsStrict(d))
      && (m.visitor.Skipping? && AcceptsOnlyDecimals(m.parsers) ==> (IsJson(s[j..e]) <==> HasNoExtras(d)))
  {
    hide ValueFrom, Text, Nesting, IsShaped, NumbersTaken, IsStrict, HasNoExtras, IsJson, AcceptsOnlyDecimals;
    d := TakenDoc(s, j, depth, m);
    var e := ValueFrom(s, j, depth, m).next;
    assert s[j..e] == Text(d);
    IsJsonIff(d);
    if m.visitor.Skipping? && AcceptsOnlyDecimals(m.parsers) {
      StrictIffNoExtras(d, j, ByteAt(s, e), m);
    }
  }

  // ---------- Inputs that are taken and are no JSON ----------

  /** `[-01]` */
  const MINUS_ZERO_ONE: seq<byte> := [OPEN_BRACKET, MINUS, ZERO, 0x31, CLOSE_BRACKET]

  /** `[1-2]` */
  const ONE_MINUS_TWO: seq<byte> := [OPEN_BRACKET, 0x31, MINUS, 0x32, CLOSE_BRACKET]

  /** `{"":1,null:2}` */
  const NULL_NAME: seq<byte> :=
    [OPEN_BRACE, QUOTE, QUOTE, COLON, 0x31, COMMA, LOWER_N, LOWER_U, LOWER_L, LOWER_L, COLON, 0x32, CLOSE_BRACE]

  /** A list of one number. */
  lemma OneNumber(t: seq<byte>, m: Mode)
    requires IsTakenNumber(t, 1, Some(CLOSE_BRACKET), m)
    ensures var s := [OPEN_BRACKET] + t + [CLOSE_BRACKET];
      ValueFrom(s, 0, 0, m) == Done(Seen(Arr([Seen(Number(t), m)]), m), |t| + 2) && (IsJson(s) <==> IsNumberText(t))
  {
    hide ValueFrom, IsNumberText, IsTakenNumber, IsJson, IsNumberRun;
    var items := LastItem([], DNumber(t), []);
    var d := DArray(items);
    var s := [OPEN_BRACKET] + t + [CLOSE_BRACKET];
    TakenIsRun(t, 1, Some(CLOSE_BRACKET), m);
    assert ItemsText(items) == t + [CLOSE_BRACKET];
    assert Text(d) == s;
    assert Nesting(items.value) == 0;
    assert AreShapedItems(items) && ItemsNesting(items) == 0;
    OneItemTaken(items, t, m);
    assert ItemValues(items, m) == [Seen(Number(t), m)];
    assert AreStrictItems(items) <==> IsNumberText(t);
    AtItself(s, 0, |s|);
    assert s[0..|s|] == s;
    TakenThere(d, s, 0, 0, m);
    IsJsonIff(d);
  }

  lemma OneItemTaken(items: Items, t: seq<byte>, m: Mode)
    requires items == LastItem([], DNumber(t), []) && IsTakenNumber(t, 1, Some(CLOSE_BRACKET), m)
    ensures ItemNumbersTaken(items, 1, m)
  {
    hide IsTakenNumber;
    assert NumbersTaken(items.value, 1, Some(ItemNext(items)), m);
  }

  /** A flat buffer skips `[-01]`. */
  lemma MinusZeroIsSkipped(m: Mode)
    requires m.visitor.Skipping? && m.chunks == []
    ensures ValueFrom(MINUS_ZERO_ONE, 0, 0, m) == Done(Nothing, 5) && !IsJson(MINUS_ZERO_ONE)
  {
    hide ValueFrom, IsNumberText, IsJson;
    var t := [MINUS, ZERO, 0x31];
    assert DigitsEnd(t, 1) == DigitsEnd(t, 2) == 3;
    assert IsPlainNumber(t) && !IsBrokenNumber(t, 4);
    ExtraFormIsNoNumber(t);
    OneNumber(t, m);
    assert [OPEN_BRACKET] + t + [CLOSE_BRACKET] == MINUS_ZERO_ONE;
  }

  /** `[01]`, in one buffer, or in two chunks with the zero at the end of the first. */
  const ZERO_ONE: seq<byte> := [OPEN_BRACKET, ZERO, 0x31, CLOSE_BRACKET]
  const ZERO_ONE_SPLIT: seq<seq<byte>> := [[OPEN_BRACKET, ZERO], [0x31, CLOSE_BRACKET]]

  /** The split can decide: strconv accepts `01`, and `[01]` is skipped where a chunk ends behind the zero. */
  lemma SplitDecides(parsers: FloatParsers)
    requires parsers.accepts32([ZERO, 0x31])
    ensures Flatten(ZERO_ONE_SPLIT) == ZERO_ONE && !IsJson(ZERO_ONE)
    ensures ValueFrom(ZERO_ONE, 0, 0, Mode(Skipping, ZERO_ONE_SPLIT, parsers)) == Done(Nothing, 4)
    ensures ValueFrom(ZERO_ONE, 0, 0, Mode(Skipping, [], parsers)) == Fails
  {
    hide IsJson, TakenBySkip;
    var t := [ZERO, 0x31];
    var m, m' := Mode(Skipping, ZERO_ONE_SPLIT, parsers), Mode(Skipping, [], parsers);
    assert Flatten(ZERO_ONE_SPLIT[1..]) == [0x31, CLOSE_BRACKET];
    SplitRoom(t, m);
    assert [OPEN_BRACKET] + t + [CLOSE_BRACKET] == ZERO_ONE;
    ExtraFormIsNoNumber(t);
    ZeroOneFlat(m');
    OneNumber(t, m);
  }

  lemma SplitRoom(t: seq<byte>, m: Mode)
    requires t == [ZERO, 0x31] && m.chunks == ZERO_ONE_SPLIT && m.visitor.Skipping? && m.parsers.accepts32(t)
    ensures IsTakenNumber(t, 1, Some(CLOSE_BRACKET), m)
  {
    assert ChunkEnd(0, m.chunks, 1) == ChunkEnd(2, m.chunks[1..], 1) == 2;
    assert RoomAt(m, 1, 2) == 1;
    assert IndexOf(t, DOT, 0) == IndexOf(t, DOT, 1) == IndexOf(t, DOT, 2) == -1;
    assert TakenByReadFloat32(t, CLOSE_BRACKET, 1, m.parsers);
  }

  lemma ZeroOneFlat(m: Mode)
    requires m.visitor.Skipping? && m.chunks == []
    ensures ValueFrom(ZERO_ONE, 0, 0, m) == Fails
  {
    var s := ZERO_ONE;
    SkipNothing(s, 0);
    SkipNothing(s, 1);
    assert BufferEnd(s, m.chunks, 1) == 4;
    assert FastFrom(s, 1, 4, F32) == Fault;
    assert NumberValueAt(s, 1, m) == Fails;
    assert ValueFrom(s, 1, 1, m) == Fails;
    assert Elements(s, 1, 1, m) == Fails;
    assert AfterBracket(s, 1, 0, m) == Fails;
  }

  /** `[1-2]` is read, as a list of one number. */
  lemma NumberRunIsRead(m: Mode)
    requires m.visitor.Reading?
    ensures ValueFrom(ONE_MINUS_TWO, 0, 0, m) == Done(Arr([Number([0x31, MINUS, 0x32])]), 5)
    ensures !IsJson(ONE_MINUS_TWO)
  {
    hide ValueFrom, IsJson;
    var t := [0x31, MINUS, 0x32];
    OneNumber(t, m);
    assert DigitsEnd(t, 0) == DigitsEnd(t, 1) == 1;
    assert [OPEN_BRACKET] + t + [CLOSE_BRACKET] == ONE_MINUS_TWO;
  }

  /** `{"":1,null:2}` is read, as two fields of the empty name. */
  lemma NullNameIsRead(m: Mode)
    requires m.visitor.Reading?
    ensures ValueFrom(NULL_NAME, 0, 0, m) == Done(Obj(map[[] := Number([0x32])]), 13) && !IsJson(NULL_NAME)
  {
    hide ValueFrom, IsJson;
    var last := LastMember([], NullName, [], [], DNumber([0x32]), []);
    var members := Member([], Body([]), [], [], DNumber([0x31]), [], last);
    NullNameText(last, members);
    NullNameFields(last, members, m);
    var d := DObject(members);
    AtItself(NULL_NAME, 0, 13);
    assert NULL_NAME[0..13] == NULL_NAME;
    TakenThere(d, NULL_NAME, 0, 0, m);
    IsJsonIff(d);
  }

  lemma NullNameText(last: Grammar.Members, members: Grammar.Members)
    requires last == LastMember([], NullName, [], [], DNumber([0x32]), [])
    requires members == Member([], Body([]), [], [], DNumber([0x31]), [], last)
    ensures [OPEN_BRACE] + MembersText(members) == NULL_NAME
  {
    hide MembersText;
    MemberText(last, [0x32]);
    MemberText(members, [0x31]);
  }

  lemma MemberText(members: Grammar.Members, x: seq<byte>)
    requires members.before == members.colon == members.middle == members.after == [] && Text(members.value) == x
    ensures MembersText(members) ==
            NameText(members.name) + [COLON] + x
            + if members.Member? then [COMMA] + MembersText(members.rest) else [CLOSE_BRACE]
  {
    hide NameText, Text;
    WithoutSpace(NameText(members.name), x, AfterMember(members));
  }

  lemma WithoutSpace(name: seq<byte>, value: seq<byte>, last: seq<byte>)
    ensures [] + (name + ([] + ([COLON] + ([] + (value + ([] + last)))))) == name + [COLON] + value + last
  {
    assert [] + last == last;
    assert [] + (value + last) == value + last;
    assert [] + ([COLON] + (value + last)) == [COLON] + (value + last);
  }

  lemma EmptyString()
    ensures StringOf([]) == [] && IsStringBody([])
  {
    assert [] + [QUOTE] == [QUOTE];
  }

  lemma NullNameShape(last: Grammar.Members, members: Grammar.Members, m: Mode)
    requires last == LastMember([], NullName, [], [], DNumber([0x32]), []) && m.visitor.Reading?
    requires members == Member([], Body([]), [], [], DNumber([0x31]), [], last)
    ensures AreShapedMembers(members) && MemberNumbersTaken(members, 3, m) && MembersNesting(members) == 0
    ensures !AreStrictMembers(members)
  {
    hide IsStringBody;
    EmptyString();
    assert Nesting(last.value) == Nesting(members.value) == 0;
    assert IsShaped(last.value) && IsShaped(members.value);
    assert NumbersTaken(last.value, 11, Some(MemberNext(last)), m);
    assert NumbersTaken(members.value, 4, Some(MemberNext(members)), m);
    assert Text(members.value) == [0x31];
    assert AreShapedMembers(last) && MemberNumbersTaken(last, 10, m) && MembersNesting(last) == 0;
  }

  lemma NullNameFields(last: Grammar.Members, members: Grammar.Members, m: Mode)
    requires last == LastMember([], NullName, [], [], DNumber([0x32]), []) && m.visitor.Reading?
    requires members == Member([], Body([]), [], [], DNumber([0x31]), [], last)
    ensures AreShapedMembers(members) && MemberNumbersTaken(members, 3, m) && MembersNesting(members) == 0
    ensures !AreStrictMembers(members)
    ensures FieldMap(FieldsOf(members, m)) == map[[] := Number([0x32])]
  {
    hide AreShapedMembers, MemberNumbersTaken, StringOf, AreStrictMembers, MembersNesting;
    NullNameShape(last, members, m);
    EmptyString();
    assert FieldsOf(last, m) == [([], Number([0x32]))];
    assert FieldsOf(members, m) == [([], Number([0x31])), ([], Number([0x32]))];
    assert FieldMap(FieldsOf(last, m)) == map[[] := Number([0x32])] + FieldMap([]);
    assert FieldsOf(members, m)[1..] == FieldsOf(last, m);
  }
}

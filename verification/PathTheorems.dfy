/** Looking up a path in the bytes of a valid document gives exactly the value the path leads to. */
module PathTheorems {
  import opened Bytes
  import opened StringMachines
  import opened FloatMachines
  import opened NumberTheorems
  import opened NumberSkips
  import opened IterCore
  import opened ValueMachines
  import opened Grammar
  import opened NumberForms
  import opened DocTheorems
  import opened LookupMachines
  import opened AnyReader
  import Containers

  /** A document as a lazy value. */
  function AnyOf(d: Doc): Any {
    match d
    case DNull => NilAny
    case DTrue => TrueAny
    case DFalse => FalseAny
    case DNumber(text) => NumberLazyAny(text)
    case DString(body) => StringAny(StringOf(body))
    case DEmptyArray(_) => ArrayLazyAny(Text(d))
    case DArray(_) => ArrayLazyAny(Text(d))
    case DEmptyObject(_) => ObjectLazyAny(Text(d))
    case DObject(_) => ObjectLazyAny(Text(d))
  }

  /** `skipNumber` takes every number that can be skipped, also one that starts with a zero. */
  lemma SkipNumberTakes(t: seq<byte>, c: byte, room: nat, m: Mode)
    requires IsNumberText(t) && IsSkippableNumber(t, m) && m.visitor.Skipping? && IsDelimiter(c)
    requires m.chunks == [] ==> room > |t|
    ensures TakenBySkipNumber(t, c, room, m.parsers)
  {
    hide IsNumberText, IsPlainNumber, IsBrokenNumber, StartsBadly, ValidatePositiveFloat, IsExponentFree, UnsignedText;
    ValidShape(t);
  }

  lemma LazyNumberSkips(t: seq<byte>, s: seq<byte>, j: nat, m: Mode)
    requires IsNumberText(t) && IsSkippableNumber(t, m) && m.visitor.Skipping?
    requires At(s, j, t) && j + |t| < |s| && IsDelimiter(s[j + |t|])
    ensures j < |s| && SkippedNumber(s, j, BufferEnd(s, m.chunks, j), m.parsers) == Stops(j + |t|)
  {
    hide At, IsNumberText, IsNumberRun, SkippedNumber, TakenBySkipNumber, NumberEnd, IsSkippableNumber;
    ValidIsRun(t);
    RunThere(t, s, j);
    var limit := BufferEnd(s, m.chunks, j);
    SkipNumberTakes(t, s[j + |t|], limit - j, m);
    SkippedNumberTaken(s, j, limit, m.parsers);
  }

  /** In front of a container, what `readAny` captures is its text. */
  lemma LazyContainer(iter: Iterator, i: nat, d: Doc, any: Any, depth: int)
    requires i <= |iter.input| && ReadLazily(iter, i, any, depth)
    requires var m := Containers.ModeOf(iter, Skipping);
      WellFormed(d) && IsSkippable(d, m) && depth + Nesting(d) <= MAX_DEPTH
    requires d.DArray? || d.DEmptyArray? || d.DObject? || d.DEmptyObject?
    requires At(iter.input, SkipWhitespace(iter.input, i), Text(d))
    ensures any == AnyOf(d)
  {
    hide At, WellFormed, IsSkippable, Nesting, ArrayAt, ObjectAt, ItemsText, MembersText;
    var s, j := iter.input, SkipWhitespace(iter.input, i);
    ValueThere(d, s, j, depth, Containers.ModeOf(iter, Skipping));
    AtIndex(s, j, Text(d), 0);
    TextThere(s, j, Text(d));
  }

  lemma TextThere(s: seq<byte>, j: nat, t: seq<byte>)
    requires At(s, j, t)
    ensures j + |t| <= |s| && s[j..j + |t|] == t
  {
  }

  /** In front of any value of a valid document, `readAny` gives that value. */
  lemma LazyIsAnyOf(iter: Iterator, i: nat, d: Doc, any: Any, depth: int)
    requires i <= |iter.input| && ReadLazily(iter, i, any, depth)
    requires var m := Containers.ModeOf(iter, Skipping);
      WellFormed(d) && IsSkippable(d, m) && depth + Nesting(d) <= MAX_DEPTH
    requires At(iter.input, SkipWhitespace(iter.input, i), Text(d))
    requires var e := SkipWhitespace(iter.input, i) + |Text(d)|;
      d.DNumber? ==>
        if e < |iter.input| then IsDelimiter(iter.input[e])
        else !iter.fromReader && iter.chunks == [] && iter.parsers.accepts64(UnsignedText(d.text))
    ensures any == AnyOf(d)
  {
    hide At, ReadLazily, IsStringBody, IsNumberText, IsSkippableNumber, WellFormedItems, WellFormedMembers,
         AreSkippableItems, AreSkippableMembers, ItemsText, MembersText, IsSpace;
    match d {
      case DString(body) => LazyString(iter, i, body, any, depth);
      case DNumber(text) => LazyNumberIs(iter, i, text, any, depth);
      case DArray(_) => LazyContainer(iter, i, d, any, depth);
      case DEmptyArray(_) => LazyContainer(iter, i, d, any, depth);
      case DObject(_) => LazyContainer(iter, i, d, any, depth);
      case DEmptyObject(_) => LazyContainer(iter, i, d, any, depth);
      case _ => LazyLiteral(iter, i, d, any, depth);
    }
  }

  lemma LazyLiteral(iter: Iterator, i: nat, d: Doc, any: Any, depth: int)
    requires i <= |iter.input| && ReadLazily(iter, i, any, depth) && (d.DNull? || d.DTrue? || d.DFalse?)
    requires At(iter.input, SkipWhitespace(iter.input, i), Text(d))
    ensures any == AnyOf(d)
  {
    hide At, Decode, ArrayAt, ObjectAt, LazyNumber;
    var s, j := iter.input, SkipWhitespace(iter.input, i);
    match d {
      case DNull => LiteralThere(s, j, LOWER_N, ULL);
      case DTrue => LiteralThere(s, j, LOWER_T, RUE);
      case DFalse => LiteralThere(s, j, LOWER_F, ALSE);
    }
  }

  lemma LazyString(iter: Iterator, i: nat, body: seq<byte>, any: Any, depth: int)
    requires i <= |iter.input| && ReadLazily(iter, i, any, depth) && IsStringBody(body)
    requires At(iter.input, SkipWhitespace(iter.input, i), Quoted(body))
    ensures any == StringAny(StringOf(body))
  {
    hide At, Decode, RawEnd, IsStringBody, StringOf, ArrayAt, ObjectAt, LazyNumber;
    QuotedThere(body, iter.input, SkipWhitespace(iter.input, i));
  }

  lemma LazyNumberIs(iter: Iterator, i: nat, text: seq<byte>, any: Any, depth: int)
    requires i <= |iter.input| && ReadLazily(iter, i, any, depth)
    requires IsNumberText(text) && IsSkippableNumber(text, Containers.ModeOf(iter, Skipping))
    requires At(iter.input, SkipWhitespace(iter.input, i), text)
    requires var e := SkipWhitespace(iter.input, i) + |text|;
      if e < |iter.input| then IsDelimiter(iter.input[e])
      else !iter.fromReader && iter.chunks == [] && iter.parsers.accepts64(UnsignedText(text))
    ensures any == NumberLazyAny(text)
  {
    hide At, IsNumberText, IsSkippableNumber, SkippedNumber, BufferEnd, ArrayAt, ObjectAt, Decode;
    var s, j := iter.input, SkipWhitespace(iter.input, i);
    NumberBegins(text, s, j);
    TextThere(s, j, text);
    if j + |text| < |s| {
      LazyNumberSkips(text, s, j, Containers.ModeOf(iter, Skipping));
    } else {
      NumberIsCut(iter, text, j);
      OneBuffer(s, j);
    }
  }

  lemma OneBuffer(s: seq<byte>, j: nat)
    requires j < |s|
    ensures BufferEnd(s, [], j) == |s|
  {
  }

  lemma NumberBegins(t: seq<byte>, s: seq<byte>, j: nat)
    requires IsNumberText(t) && At(s, j, t)
    ensures j < |s| && StartsNumber(s[j])
  {
    hide IsNumberText;
    ValidShape(t);
    AtIndex(s, j, t, 0);
  }

  /** A number that ends the bytes is handed to strconv. */
  lemma NumberIsCut(iter: Iterator, t: seq<byte>, j: nat)
    requires IsNumberText(t) && At(iter.input, j, t) && j + |t| == |iter.input|
    requires iter.parsers.accepts64(UnsignedText(t))
    ensures j < |iter.input| && SkippedNumber(iter.input, j, |iter.input|, iter.parsers) == Ends && iter.input[j..] == t
  {
    hide At, IsNumberText, IsNumberRun, RfcNumber, FastFrom, TrySkipFrom, NumberEnd, ValidatePositiveFloat;
    var s := iter.input;
    TextThere(s, j, t);
    ValidIsRun(t);
    ValidShape(t);
    RunThere(t, s, j);
    NumberFollowed(t, s, j);
    NumberThereIsNumber(t, s, j);
    TrySkipsNumber(s, j, |s|, |s|);
    TrySkipRun(s, j, |s|);
    var k := Unsigned(s, j);
    UnsignedRun(s, j);
    FastEndsAtNumber(s, j, |s|, |s|, F64);
    if FastFrom(s, k, |s|, F64).Fast? {
      FastEndsRun(s, k, |s|, F64);
    }
  }

  // ---------- Values of a valid document ----------

  /** What a path leads to in a valid document is valid too. */
  lemma {:induction false} PartIsValid(d: Doc, path: seq<Step>, m: Mode)
    requires WellFormed(d) && IsSkippable(d, m) && DocAt(d, path).Some?
    ensures WellFormed(DocAt(d, path).value) && IsSkippable(DocAt(d, path).value, m)
    decreases |path|
  {
    if path != [] {
      if path[0].Key? {
        MemberIsValid(d.members, path[0].name, m);
      } else {
        ItemIsValid(d.items, path[0].n, m);
      }
      PartIsValid(DocStep(d, path[0]).value, path[1..], m);
    }
  }

  lemma {:induction false} MemberIsValid(members: Grammar.Members, name: seq<byte>, m: Mode)
    requires WellFormedMembers(members) && AreSkippableMembers(members, m)
    ensures var sub := FindMember(members, name);
      sub.Some? ==> WellFormed(sub.value) && IsSkippable(sub.value, m)
    decreases members
  {
    hide NameOf, WellFormed, IsSkippable;
    if members.Member? {
      MemberIsValid(members.rest, name, m);
    }
  }

  lemma {:induction false} ItemIsValid(items: Items, n: int, m: Mode)
    requires WellFormedItems(items) && AreSkippableItems(items, m)
    ensures var sub := FindItem(items, n);
      sub.Some? ==> WellFormed(sub.value) && IsSkippable(sub.value, m)
    decreases items
  {
    hide WellFormed, IsSkippable;
    if items.Item? {
      ItemIsValid(items.rest, n - 1, m);
    }
  }

  /**
   * `Get` on the bytes of a valid document, numbers that can be skipped: for every path it returns exactly the
   * value that the path leads to, and the invalid value exactly when there is none. A number that is the very
   * last thing in the bytes is handed to strconv.
   */
  method Get(data: array<byte>, path: seq<Step>, parsers: FloatParsers,
             ghost before: seq<byte>, ghost d: Doc, ghost after: seq<byte>)
    returns (any: Any)
    requires data[..] == before + Text(d) + after && IsSpace(before) && IsSpace(after)
    requires WellFormed(d) && IsSkippable(d, Mode(Skipping, [], parsers)) && Nesting(d) <= MAX_DEPTH
    requires d.DNumber? && after == [] ==> parsers.accepts64(UnsignedText(d.text))
    modifies data
    ensures any == match DocAt(d, path) case Some(sub) => AnyOf(sub) case None => InvalidAny
  {
    hide Text, WellFormed, IsSkippable, Nesting, ReadLazily, Locate, DocAt, IsSpace, AnyOf;
    var iter := new Iterator.ParseBytes(data, parsers);
    any := LocatePath(iter, path);
    LocatedIsLookup(iter, path, any, before, d, after);
  }

  /** What `locatePath` returned on a flat buffer that holds a valid document. */
  lemma LocatedIsLookup(iter: Iterator, path: seq<Step>, any: Any, before: seq<byte>, d: Doc, after: seq<byte>)
    requires iter.input == before + Text(d) + after && IsSpace(before) && IsSpace(after)
    requires !iter.fromReader && iter.chunks == []
    requires WellFormed(d) && IsSkippable(d, Mode(Skipping, [], iter.parsers)) && Nesting(d) <= MAX_DEPTH
    requires d.DNumber? && after == [] ==> iter.parsers.accepts64(UnsignedText(d.text))
    requires match Locate(iter.input, 0, path, 0, Containers.ModeOf(iter, Skipping))
      case Done(found, next) =>
        if found then next <= |iter.input| && ReadLazily(iter, next, any, 0) else any == InvalidAny
      case Fails => any == InvalidAny
    ensures any == match DocAt(d, path) case Some(sub) => AnyOf(sub) case None => InvalidAny
  {
    hide Text, WellFormed, IsSkippable, Nesting, ReadLazily, Locate, DocAt, IsSpace, AnyOf, At, IsTaken, IsSearchable;
    var s, m := iter.input, Containers.ModeOf(iter, Skipping);
    DocumentThere(before, d, after, s);
    if path == [] {
      EmptyPath(d, s, m);
      LazyIsAnyOf(iter, 0, d, any, 0);
    } else {
      SkippableIsTaken(d, SkipWhitespace(s, 0), Some(COMMA), m);
      TakenIsSearchable(d, SkipWhitespace(s, 0), Some(COMMA), m);
      LocateInDoc(d, s, 0, path, 0, m);
      if DocAt(d, path).Some? {
        PartIsValid(d, path, m);
        LazyIsAnyOf(iter, Locate(s, 0, path, 0, m).next, DocAt(d, path).value, any, 0);
      }
    }
  }

  lemma EmptyPath(d: Doc, s: seq<byte>, m: Mode)
    ensures DocAt(d, []) == Some(d) && Locate(s, 0, [], 0, m) == Done(true, 0)
  {
  }

  lemma DocumentThere(before: seq<byte>, d: Doc, after: seq<byte>, s: seq<byte>)
    requires s == before + Text(d) + after && IsSpace(before) && IsSpace(after) && WellFormed(d)
    ensures SkipWhitespace(s, 0) == |before| && At(s, |before|, Text(d))
    ensures var e := |before| + |Text(d)|;
      e <= |s| && (e < |s| ==> IsDelimiter(s[e])) && (e == |s| ==> after == [])
  {
    hide Text, WellFormed, IsShaped, IsStrict;
    WellFormedIff(d);
    assert s[0..|before|] == before;
    assert s[|before|..|before| + |Text(d)|] == Text(d);
    ValueBegins(d, s, |before|);
    SpaceThere(before, s, 0);
  }
}

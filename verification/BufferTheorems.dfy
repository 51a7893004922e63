/**
 * What is read depends on the input alone: not on how it is buffered, and not on strconv. What is skipped depends on
 * how the input is buffered only where a chunk ends in a number or just behind it.
 */
module BufferTheorems {
  import opened Bytes
  import opened StringMachines
  import opened NumberSkips
  import opened IterCore
  import opened ValueMachines
  import opened Grammar
  import opened DocTheorems
  import opened AcceptTheorems

  // ---------- Documents in two modes ----------

  /** Two modes under which a number of that text at `j` is taken alike. */
  ghost predicate SameNumber(text: seq<byte>, j: nat, m: Mode, m': Mode) {
    || m.visitor.Reading?
    || (&& m.parsers == m'.parsers
        && (RoomAt(m, j, |text|) == RoomAt(m', j, |text|)
            || (RoomAt(m, j, |text|) > |text| && RoomAt(m', j, |text|) > |text|)))
  }

  /** Every number of a document at `j` is taken alike. */
  ghost predicate SameNumbers(d: Doc, j: nat, m: Mode, m': Mode) {
    match d
    case DNumber(text) => SameNumber(text, j, m, m')
    case DArray(items) => SameItemNumbers(items, j + 1, m, m')
    case DObject(members) => SameMemberNumbers(members, FirstNameEnd(members, j + 1), m, m')
    case _ => true
  }

  ghost predicate SameItemNumbers(items: Items, i: nat, m: Mode, m': Mode) {
    var j := i + |items.before|;
    && SameNumbers(items.value, j, m, m')
    && (items.Item? ==> SameItemNumbers(items.rest, j + |Text(items.value)| + |items.after| + 1, m, m'))
  }

  ghost predicate SameMemberNumbers(members: Grammar.Members, n: nat, m: Mode, m': Mode) {
    var j := n + |members.colon| + 1 + |members.middle|;
    && SameNumbers(members.value, j, m, m')
    && (members.Member? ==>
          SameMemberNumbers(members.rest,
                            FirstNameEnd(members.rest, j + |Text(members.value)| + |members.after| + 1), m, m'))
  }

  /** Two modes that read, or two that skip. */
  ghost predicate SameVisitor(m: Mode, m': Mode) {
    m.visitor == m'.visitor
  }

  lemma {:induction false} SameDoc(d: Doc, j: nat, next: Option<byte>, m: Mode, m': Mode)
    requires SameVisitor(m, m') && SameNumbers(d, j, m, m')
    ensures NumbersTaken(d, j, next, m) == NumbersTaken(d, j, next, m') && ValueOf(d, m) == ValueOf(d, m')
    decreases d, 1
  {
    hide IsNumberRun, TakenBySkip, RoomAt, FirstNameEnd, StringOf;
    match d {
      case DNumber(text) =>
        if m.visitor.Skipping? && next.Some? {
          var room, room' := RoomAt(m, j, |text|), RoomAt(m', j, |text|);
          if room != room' {
            RoomEnough(text, next.value, room, room', m.parsers);
          }
        }
      case DArray(items) => SameItems(items, j + 1, m, m');
      case DObject(members) => SameMembers(members, FirstNameEnd(members, j + 1), m, m');
      case _ =>
    }
  }

  lemma {:induction false} SameItems(items: Items, i: nat, m: Mode, m': Mode)
    requires SameVisitor(m, m') && SameItemNumbers(items, i, m, m')
    ensures ItemNumbersTaken(items, i, m) == ItemNumbersTaken(items, i, m')
    ensures ItemValues(items, m) == ItemValues(items, m')
    decreases items, 0
  {
    hide NumbersTaken, ValueOf, SameNumbers, Text;
    var j := i + |items.before|;
    SameDoc(items.value, j, Some(ItemNext(items)), m, m');
    if items.Item? {
      SameItems(items.rest, j + |Text(items.value)| + |items.after| + 1, m, m');
    }
  }

  lemma {:induction false} SameMembers(members: Grammar.Members, n: nat, m: Mode, m': Mode)
    requires SameVisitor(m, m') && SameMemberNumbers(members, n, m, m')
    ensures MemberNumbersTaken(members, n, m) == MemberNumbersTaken(members, n, m')
    ensures FieldsOf(members, m) == FieldsOf(members, m')
    decreases members, 0
  {
    hide NumbersTaken, ValueOf, NameOf, SameNumbers, Text, FirstNameEnd;
    var j := n + |members.colon| + 1 + |members.middle|;
    SameDoc(members.value, j, Some(MemberNext(members)), m, m');
    if members.Member? {
      SameMembers(members.rest, FirstNameEnd(members.rest, j + |Text(members.value)| + |members.after| + 1), m, m');
    }
  }

  /** A document taken in one mode is taken in the other. */
  lemma TakenEitherWay(d: Doc, s: seq<byte>, j: nat, depth: int, m: Mode, m': Mode)
    requires j < |s| && depth <= MAX_DEPTH && ValueFrom(s, j, depth, m).Done?
    requires StandsAt(d, s, j, ValueFrom(s, j, depth, m).next, depth, m)
    requires SameVisitor(m, m') && SameNumbers(d, j, m, m')
    ensures ValueFrom(s, j, depth, m) == ValueFrom(s, j, depth, m')
  {
    hide ValueFrom, At, Text, Nesting, IsShaped, NumbersTaken, ValueOf, SameNumbers;
    SameDoc(d, j, ByteAt(s, j + |Text(d)|), m, m');
    TakenThere(d, s, j, depth, m);
    TakenThere(d, s, j, depth, m');
  }

  /**
   * A document in which no chunk ends in a number or just behind it, or in which the same part of each number is in
   * its buffer, is skipped from both readers or from neither.
   */
  lemma SkipIgnoresBuffering(d: Doc, s: seq<byte>, j: nat, e: nat, depth: int, m: Mode, m': Mode)
    requires SameVisitor(m, m') && SameNumbers(d, j, m, m')
    ensures StandsAt(d, s, j, e, depth, m) <==> StandsAt(d, s, j, e, depth, m')
  {
    hide At, Text, Nesting, IsShaped, NumbersTaken, ValueOf, SameNumbers;
    SameDoc(d, j, ByteAt(s, e), m, m');
  }

  // ---------- Reading ----------

  /** For reading all numbers are alike. */
  lemma {:induction false} ReadNumbersAlike(d: Doc, j: nat, m: Mode, m': Mode)
    requires m.visitor.Reading?
    ensures SameNumbers(d, j, m, m')
    decreases d, 1
  {
    hide FirstNameEnd;
    match d {
      case DArray(items) => ReadItemsAlike(items, j + 1, m, m');
      case DObject(members) => ReadMembersAlike(members, FirstNameEnd(members, j + 1), m, m');
      case _ =>
    }
  }

  lemma {:induction false} ReadItemsAlike(items: Items, i: nat, m: Mode, m': Mode)
    requires m.visitor.Reading?
    ensures SameItemNumbers(items, i, m, m')
    decreases items, 0
  {
    hide SameNumbers, Text;
    var j := i + |items.before|;
    ReadNumbersAlike(items.value, j, m, m');
    if items.Item? {
      ReadItemsAlike(items.rest, j + |Text(items.value)| + |items.after| + 1, m, m');
    }
  }

  lemma {:induction false} ReadMembersAlike(members: Grammar.Members, n: nat, m: Mode, m': Mode)
    requires m.visitor.Reading?
    ensures SameMemberNumbers(members, n, m, m')
    decreases members, 0
  {
    hide SameNumbers, Text, FirstNameEnd;
    var j := n + |members.colon| + 1 + |members.middle|;
    ReadNumbersAlike(members.value, j, m, m');
    if members.Member? {
      var k := j + |Text(members.value)| + |members.after|;
      ReadMembersAlike(members.rest, FirstNameEnd(members.rest, k + 1), m, m');
    }
  }

  lemma ReadEitherWay(s: seq<byte>, j: nat, depth: int, m: Mode, m': Mode)
    requires m.visitor.Reading? && m'.visitor.Reading?
    requires j < |s| && depth <= MAX_DEPTH && ValueFrom(s, j, depth, m).Done?
    ensures ValueFrom(s, j, depth, m) == ValueFrom(s, j, depth, m')
  {
    hide ValueFrom, StandsAt, SameNumbers;
    var d := TakenDoc(s, j, depth, m);
    ReadNumbersAlike(d, j, m, m');
    TakenEitherWay(d, s, j, depth, m, m');
  }

  /** Any input, valid or not, reads alike in any buffering and with any strconv. */
  lemma ReadIgnoresBuffering(s: seq<byte>, i: nat, depth: int, m: Mode, m': Mode)
    requires m.visitor.Reading? && m'.visitor.Reading? && i <= |s| && depth <= MAX_DEPTH
    ensures ValueAt(s, i, depth, m) == ValueAt(s, i, depth, m')
  {
    hide ValueFrom;
    var j := SkipWhitespace(s, i);
    if j < |s| && ValueFrom(s, j, depth, m).Done? {
      ReadEitherWay(s, j, depth, m, m');
    } else if j < |s| && ValueFrom(s, j, depth, m').Done? {
      ReadEitherWay(s, j, depth, m', m);
    }
  }
}

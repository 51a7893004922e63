/** The sloppy skippers on a whole text: backslash parity, bracket counting, and what they do on documents. */
module SloppyMachines {
  import opened Bytes
  import opened StringMachines
  import opened FloatMachines
  import opened NumberTheorems
  import opened IterCore
  import opened ValueMachines
  import opened NumberSkips
  import opened Grammar
  import opened DocTheorems
  import opened AcceptTheorems

  // ---------- Backslash parity ----------

  /** Reading from `lo`, the byte at `x` is escaped; quotes do not stop this reading. */
  predicate Escaped(s: seq<byte>, lo: nat, x: nat)
    requires lo <= x <= |s|
  {
    x > lo && s[x - 1] == BACKSLASH && !Escaped(s, lo, x - 1)
  }

  /** How many backslashes stand directly before `x`, counting down to `lo`. */
  function BackslashRun(s: seq<byte>, lo: nat, x: nat): (n: nat)
    requires lo <= x <= |s|
    ensures n <= x - lo
  {
    if x > lo && s[x - 1] == BACKSLASH then 1 + BackslashRun(s, lo, x - 1) else 0
  }

  /** Counting backslashes backward gives the same answer as reading escapes forward. */
  lemma {:induction false} ParityIsEscaped(s: seq<byte>, lo: nat, x: nat)
    requires lo <= x <= |s|
    ensures Escaped(s, lo, x) <==> BackslashRun(s, lo, x) % 2 == 1
    decreases x
  {
    if x > lo && s[x - 1] == BACKSLASH {
      ParityIsEscaped(s, lo, x - 1);
    }
  }

  /** Every quote between `lo` and `x` is escaped. */
  predicate NoQuoteEnds(s: seq<byte>, lo: nat, x: nat)
    requires lo <= x <= |s|
  {
    forall k :: lo <= k < x && s[k] == QUOTE ==> Escaped(s, lo, k)
  }

  /** The forward automaton, resumed at `x`. */
  lemma {:induction false} StringEndFrom(s: seq<byte>, lo: nat, x: nat)
    requires lo <= x <= |s| && NoQuoteEnds(s, lo, x)
    ensures StringEnd(s, lo) == StringEnd(s, if Escaped(s, lo, x) then x + 1 else x)
    decreases x
  {
    if x > lo {
      StringEndFrom(s, lo, x - 1);
    }
  }

  lemma NoBackslashNoEscape(s: seq<byte>, lo: nat, x: nat)
    requires lo <= x <= |s| && forall k :: lo <= k < x ==> s[k] != BACKSLASH
    ensures !Escaped(s, lo, x)
  {
  }

  // ---------- Bracket counting ----------

  /** `skipArray` counts brackets, `skipObject` counts braces. */
  datatype Kind = Square | Curly

  function Open(b: Kind): byte {
    if b == Square then OPEN_BRACKET else OPEN_BRACE
  }

  function Close(b: Kind): byte {
    if b == Square then CLOSE_BRACKET else CLOSE_BRACE
  }

  /** The loop of `skipArray` and `skipObject` at `i`: where level 0 is reached, with the depth it then has. */
  function CountFrom(s: seq<byte>, i: nat, level: nat, depth: int, b: Kind): (end: Option<nat>)
    requires i <= |s| && level >= 1
    ensures end.Some? ==> i < end.value <= |s|
    decreases |s| - i
  {
    if i == |s| then None
    else if s[i] == QUOTE then
      match StringEnd(s, i + 1)
      case Some(e) => CountFrom(s, e, level, depth, b)
      case None => None
    else if s[i] == Open(b) then
      if depth + 1 > MAX_DEPTH then None else CountFrom(s, i + 1, level + 1, depth + 1, b)
    else if s[i] == Close(b) then
      if depth - 1 < 0 then None
      else if level == 1 then Some(i + 1)
      else CountFrom(s, i + 1, level - 1, depth - 1, b)
    else CountFrom(s, i + 1, level, depth, b)
  }

  /** A container whose opening bracket is consumed, at `depth` open containers. */
  function ContainerEnd(s: seq<byte>, i: nat, depth: int, b: Kind): Option<nat>
    requires i <= |s|
  {
    if depth + 1 > MAX_DEPTH then None else CountFrom(s, i, 1, depth + 1, b)
  }

  /** Where the sloppy number skipper stops. */
  function DelimiterEnd(s: seq<byte>, i: nat): (e: nat)
    requires i <= |s|
    ensures i <= e <= |s|
    ensures e < |s| ==> IsDelimiter(s[e])
    ensures forall k :: i <= k < e ==> !IsDelimiter(s[k])
    decreases |s| - i
  {
    if i < |s| && !IsDelimiter(s[i]) then DelimiterEnd(s, i + 1) else i
  }

  // ---------- Counting passes over every value ----------

  /** Bytes the counting loop takes no notice of. */
  predicate IsIgnored(c: byte) {
    c != QUOTE && c != OPEN_BRACKET && c != CLOSE_BRACKET && c != OPEN_BRACE && c != CLOSE_BRACE
  }

  lemma {:induction false} IgnoredRun(s: seq<byte>, i: nat, e: nat, level: nat, depth: int, b: Kind)
    requires i <= e <= |s| && level >= 1 && forall k :: i <= k < e ==> IsIgnored(s[k])
    ensures CountFrom(s, i, level, depth, b) == CountFrom(s, e, level, depth, b)
    decreases e - i
  {
    if i < e {
      IgnoredRun(s, i + 1, e, level, depth, b);
    }
  }

  lemma IgnoredPasses(t: seq<byte>, s: seq<byte>, i: nat, level: nat, depth: int, b: Kind)
    requires At(s, i, t) && level >= 1 && forall k :: 0 <= k < |t| ==> IsIgnored(t[k])
    ensures i + |t| <= |s| && CountFrom(s, i, level, depth, b) == CountFrom(s, i + |t|, level, depth, b)
  {
    AtSlice(t, 0, |t|, s, i);
    assert t[0..|t|] == t;
    forall k | i <= k < i + |t| ensures IsIgnored(s[k]) {
      assert s[i + (k - i)] == t[k - i];
    }
    IgnoredRun(s, i, i + |t|, level, depth, b);
  }

  lemma OnePasses(c: byte, s: seq<byte>, i: nat, level: nat, depth: int, b: Kind)
    requires i < |s| && s[i] == c && IsIgnored(c) && level >= 1
    ensures CountFrom(s, i, level, depth, b) == CountFrom(s, i + 1, level, depth, b)
  {
  }

  lemma QuotedPasses(body: seq<byte>, s: seq<byte>, i: nat, level: nat, depth: int, b: Kind)
    requires IsStringBody(body) && At(s, i, Quoted(body)) && level >= 1
    ensures i + |body| + 2 <= |s|
    ensures CountFrom(s, i, level, depth, b) == CountFrom(s, i + |body| + 2, level, depth, b)
  {
    hide At, IsStringBody, Decode, RawEnd, StringEnd;
    QuotedThere(body, s, i);
    RawEndIsStringEnd(s, i + 1);
  }

  lemma NumberIsIgnored(text: seq<byte>)
    requires IsNumberRun(text)
    ensures forall k :: 0 <= k < |text| ==> IsIgnored(text[k])
  {
  }

  lemma SpacePasses(w: seq<byte>, s: seq<byte>, i: nat, level: nat, depth: int, b: Kind)
    requires IsSpace(w) && At(s, i, w) && level >= 1
    ensures i + |w| <= |s| && CountFrom(s, i, level, depth, b) == CountFrom(s, i + |w|, level, depth, b)
  {
    hide At, CountFrom;
    IgnoredPasses(w, s, i, level, depth, b);
  }

  /** How deeply containers of one kind are nested, those of the other kind not counted. */
  function KindNesting(d: Doc, b: Kind): nat {
    match d
    case DEmptyArray(_) => if b == Square then 1 else 0
    case DEmptyObject(_) => if b == Curly then 1 else 0
    case DArray(items) => (if b == Square then 1 else 0) + ItemsKindNesting(items, b)
    case DObject(members) => (if b == Curly then 1 else 0) + MembersKindNesting(members, b)
    case _ => 0
  }

  function ItemsKindNesting(items: Items, b: Kind): nat {
    match items
    case LastItem(_, value, _) => KindNesting(value, b)
    case Item(_, value, _, rest) => Max(KindNesting(value, b), ItemsKindNesting(rest, b))
  }

  function MembersKindNesting(members: Members, b: Kind): nat {
    match members
    case LastMember(_, _, _, _, value, _) => KindNesting(value, b)
    case Member(_, _, _, _, value, _, rest) => Max(KindNesting(value, b), MembersKindNesting(rest, b))
  }

  lemma {:induction false} KindNestingIsLess(d: Doc, b: Kind)
    ensures KindNesting(d, b) <= Nesting(d)
    decreases d, 1
  {
    match d {
      case DArray(items) => ItemsKindNestingIsLess(items, b);
      case DObject(members) => MembersKindNestingIsLess(members, b);
      case _ =>
    }
  }

  lemma {:induction false} ItemsKindNestingIsLess(items: Items, b: Kind)
    ensures ItemsKindNesting(items, b) <= ItemsNesting(items)
    decreases items, 0
  {
    hide Nesting, KindNesting;
    KindNestingIsLess(items.value, b);
    if items.Item? {
      ItemsKindNestingIsLess(items.rest, b);
    }
  }

  lemma {:induction false} MembersKindNestingIsLess(members: Members, b: Kind)
    ensures MembersKindNesting(members, b) <= MembersNesting(members)
    decreases members, 0
  {
    hide Nesting, KindNesting;
    KindNestingIsLess(members.value, b);
    if members.Member? {
      MembersKindNestingIsLess(members.rest, b);
    }
  }

  /**
   * Counting from `i` goes on at `e` with the level and the depth it had, unless `n` more containers of the counted
   * kind, one in the other, are too many.
   */
  predicate Passes(s: seq<byte>, i: nat, e: nat, level: nat, depth: int, b: Kind, n: nat)
    requires level >= 1
  {
    && i <= |s| && e <= |s|
    && CountFrom(s, i, level, depth, b) ==
       if depth + n <= MAX_DEPTH then CountFrom(s, e, level, depth, b) else None
  }

  /** A whole value, brackets of either kind included. */
  lemma {:induction false} ValuePasses(d: Doc, s: seq<byte>, j: nat, level: nat, depth: int, b: Kind)
    requires IsShaped(d) && At(s, j, Text(d)) && level >= 1 && 0 <= depth <= MAX_DEPTH
    ensures Passes(s, j, j + |Text(d)|, level, depth, b, KindNesting(d, b))
    decreases d, 1
  {
    hide At, CountFrom, IsStringBody, IsNumberRun, IsSpace, ItemsText, MembersText, AreShapedItems, AreShapedMembers,
         ItemsKindNesting, MembersKindNesting;
    match d {
      case DNull => IgnoredPasses(NULL_TEXT, s, j, level, depth, b);
      case DTrue => IgnoredPasses(TRUE_TEXT, s, j, level, depth, b);
      case DFalse => IgnoredPasses(FALSE_TEXT, s, j, level, depth, b);
      case DNumber(text) =>
        NumberIsIgnored(text);
        IgnoredPasses(text, s, j, level, depth, b);
      case DString(body) => QuotedPasses(body, s, j, level, depth, b);
      case DEmptyArray(space) => EmptyPasses(space, Square, s, j, level, depth, b);
      case DArray(items) => ArrayPasses(items, s, j, level, depth, b);
      case DEmptyObject(space) => EmptyPasses(space, Curly, s, j, level, depth, b);
      case DObject(members) => ObjectPasses(members, s, j, level, depth, b);
    }
  }

  lemma {:induction false} ArrayPasses(items: Items, s: seq<byte>, j: nat, level: nat, depth: int, b: Kind)
    requires AreShapedItems(items) && At(s, j, [OPEN_BRACKET] + ItemsText(items)) && level >= 1
    requires 0 <= depth <= MAX_DEPTH
    ensures Passes(s, j, j + 1 + |ItemsText(items)|, level, depth, b,
                   (if b == Square then 1 else 0) + ItemsKindNesting(items, b))
    decreases items, 1
  {
    hide At, CountFrom, AreShapedItems, ItemsText, ItemsKindNesting;
    LiteralThere(s, j, OPEN_BRACKET, ItemsText(items));
    OpenPasses(Square, s, j, level, depth, b);
    ItemsPass(items, s, j + 1, level, depth, b);
    if b != Square {
      ClosePasses(Square, s, j + |ItemsText(items)|, level, depth, b);
    } else if depth + 1 <= MAX_DEPTH {
      ItemsPass(items, s, j + 1, level + 1, depth + 1, b);
      ClosePasses(Square, s, j + |ItemsText(items)|, level + 1, depth + 1, b);
    }
  }

  lemma {:induction false} ObjectPasses(members: Members, s: seq<byte>, j: nat, level: nat, depth: int, b: Kind)
    requires AreShapedMembers(members) && At(s, j, [OPEN_BRACE] + MembersText(members)) && level >= 1
    requires 0 <= depth <= MAX_DEPTH
    ensures Passes(s, j, j + 1 + |MembersText(members)|, level, depth, b,
                   (if b == Curly then 1 else 0) + MembersKindNesting(members, b))
    decreases members, 1
  {
    hide At, CountFrom, AreShapedMembers, MembersText, MembersKindNesting;
    LiteralThere(s, j, OPEN_BRACE, MembersText(members));
    OpenPasses(Curly, s, j, level, depth, b);
    MembersPass(members, s, j + 1, level, depth, b);
    if b != Curly {
      ClosePasses(Curly, s, j + |MembersText(members)|, level, depth, b);
    } else if depth + 1 <= MAX_DEPTH {
      MembersPass(members, s, j + 1, level + 1, depth + 1, b);
      ClosePasses(Curly, s, j + |MembersText(members)|, level + 1, depth + 1, b);
    }
  }

  /** An opening bracket raises the level if it is of the counted kind. */
  lemma OpenPasses(k: Kind, s: seq<byte>, i: nat, level: nat, depth: int, b: Kind)
    requires i < |s| && s[i] == Open(k) && level >= 1
    ensures CountFrom(s, i, level, depth, b) ==
            if k != b then CountFrom(s, i + 1, level, depth, b)
            else if depth + 1 > MAX_DEPTH then None
            else CountFrom(s, i + 1, level + 1, depth + 1, b)
  {
  }

  /** A closing bracket that does not end the counting. */
  lemma ClosePasses(k: Kind, s: seq<byte>, i: nat, level: nat, depth: int, b: Kind)
    requires i < |s| && s[i] == Close(k) && level >= 1 && (k == b ==> level >= 2 && depth >= 1)
    ensures CountFrom(s, i, level, depth, b) ==
            if k == b then CountFrom(s, i + 1, level - 1, depth - 1, b) else CountFrom(s, i + 1, level, depth, b)
  {
  }

  lemma EmptyPasses(space: seq<byte>, k: Kind, s: seq<byte>, j: nat, level: nat, depth: int, b: Kind)
    requires IsSpace(space) && At(s, j, [Open(k)] + (space + [Close(k)])) && level >= 1
    requires 0 <= depth <= MAX_DEPTH
    ensures Passes(s, j, j + |space| + 2, level, depth, b, if b == k then 1 else 0)
  {
    hide At, CountFrom, IsSpace;
    LiteralThere(s, j, Open(k), space + [Close(k)]);
    AtConcat(s, j + 1, space, [Close(k)]);
    AtByte(s, j + 1 + |space|, Close(k));
    var level', depth' := if k == b then level + 1 else level, if k == b then depth + 1 else depth;
    OpenPasses(k, s, j, level, depth, b);
    SpacePasses(space, s, j + 1, level', depth', b);
    ClosePasses(k, s, j + 1 + |space|, level', depth', b);
  }

  /** The elements, up to the closing bracket. */
  lemma {:induction false} ItemsPass(items: Items, s: seq<byte>, i: nat, level: nat, depth: int, b: Kind)
    requires AreShapedItems(items) && At(s, i, ItemsText(items)) && level >= 1
    requires 0 <= depth <= MAX_DEPTH
    ensures var close := i + |ItemsText(items)| - 1;
      && i <= close < |s| && s[close] == CLOSE_BRACKET
      && Passes(s, i, close, level, depth, b, ItemsKindNesting(items, b))
    decreases items, 0
  {
    hide At, CountFrom, IsSpace, Text, IsShaped, KindNesting;
    ItemsBegin(items, s, i);
    ItemsTextIs(items);
    var j := i + |items.before|;
    var e := j + |Text(items.value)|;
    var k := e + |items.after|;
    ItemSpaces(items, s, i);
    SpacePasses(items.before, s, i, level, depth, b);
    ValuePasses(items.value, s, j, level, depth, b);
    SpacePasses(items.after, s, e, level, depth, b);
    if items.Item? {
      OnePasses(COMMA, s, k, level, depth, b);
      ItemsPass(items.rest, s, k + 1, level, depth, b);
    }
  }

  /** The members, up to the closing brace. */
  lemma {:induction false} MembersPass(members: Members, s: seq<byte>, i: nat, level: nat, depth: int, b: Kind)
    requires AreShapedMembers(members) && At(s, i, MembersText(members)) && level >= 1
    requires 0 <= depth <= MAX_DEPTH
    ensures var close := i + |MembersText(members)| - 1;
      && i <= close < |s| && s[close] == CLOSE_BRACE
      && Passes(s, i, close, level, depth, b, MembersKindNesting(members, b))
    decreases members, 0
  {
    hide At, CountFrom, IsSpace, Text, IsShaped, KindNesting, IsStringBody, AfterName, MembersText, NameText, IsName,
         AfterMember, SkipWhitespace;
    NamePasses(members, s, i, level, depth, b);
    var n := i + |members.before| + |NameText(members.name)|;
    MemberSpaces(members, s, n);
    var t := n + |members.colon|;
    var j := t + 1 + |members.middle|;
    var e := j + |Text(members.value)|;
    var k := e + |members.after|;
    SpacePasses(members.colon, s, n, level, depth, b);
    OnePasses(COLON, s, t, level, depth, b);
    SpacePasses(members.middle, s, t + 1, level, depth, b);
    ValuePasses(members.value, s, j, level, depth, b);
    SpacePasses(members.after, s, e, level, depth, b);
    if members.Member? {
      OnePasses(COMMA, s, k, level, depth, b);
      MembersPass(members.rest, s, k + 1, level, depth, b);
    }
  }

  lemma NamePasses(members: Members, s: seq<byte>, i: nat, level: nat, depth: int, b: Kind)
    requires AreShapedMembers(members) && At(s, i, MembersText(members)) && level >= 1
    ensures var n := i + |members.before| + |NameText(members.name)|;
      && n <= |s| && At(s, n, AfterName(members))
      && CountFrom(s, i, level, depth, b) == CountFrom(s, n, level, depth, b)
      && |MembersText(members)| == n - i + |AfterName(members)|
  {
    hide At, CountFrom, IsSpace, IsStringBody, AfterName, Text, IsShaped;
    var k := i + |members.before|;
    AtConcat(s, i, members.before, NameText(members.name) + AfterName(members));
    AtConcat(s, k, NameText(members.name), AfterName(members));
    SpacePasses(members.before, s, i, level, depth, b);
    if members.name.Body? {
      QuotedPasses(members.name.text, s, k, level, depth, b);
    } else {
      IgnoredPasses(NULL_TEXT, s, k, level, depth, b);
    }
  }

  // ---------- Sloppy skipping agrees with strict skipping ----------

  /** The kind of bracket that is counted for a container. */
  function KindCounted(d: Doc): Kind {
    if d.DArray? || d.DEmptyArray? then Square else Curly
  }

  /**
   * A shaped array or object whose opening bracket is at `j`: counting one kind of bracket from behind it
   * ends where the document does, if no more than 10000 containers of that kind are open at once; else it fails.
   */
  lemma CountingEndsAtDocument(d: Doc, s: seq<byte>, j: nat, depth: int)
    requires IsShaped(d) && At(s, j, Text(d)) && 0 <= depth <= 10000
    requires d.DArray? || d.DEmptyArray? || d.DObject? || d.DEmptyObject?
    ensures j < |s|
    ensures ContainerEnd(s, j + 1, depth, KindCounted(d)) ==
            if depth + KindNesting(d, KindCounted(d)) <= 10000 then Some(j + |Text(d)|) else None
  {
    hide At, CountFrom, IsSpace, ItemsText, MembersText, AreShapedItems, AreShapedMembers, ContainerEnd;
    match d {
      case DArray(items) => ItemsCount(items, s, j, depth);
      case DObject(members) => MembersCount(members, s, j, depth);
      case DEmptyArray(space) => EmptyCounts(space, Square, s, j, depth);
      case DEmptyObject(space) => EmptyCounts(space, Curly, s, j, depth);
    }
  }

  lemma ItemsCount(items: Items, s: seq<byte>, j: nat, depth: int)
    requires AreShapedItems(items) && At(s, j, [OPEN_BRACKET] + ItemsText(items)) && 0 <= depth <= MAX_DEPTH
    ensures j < |s|
    ensures ContainerEnd(s, j + 1, depth, Square) ==
            if depth + 1 + ItemsKindNesting(items, Square) <= MAX_DEPTH then Some(j + 1 + |ItemsText(items)|) else None
  {
    hide At, CountFrom, ItemsText, AreShapedItems, ItemsKindNesting;
    LiteralThere(s, j, OPEN_BRACKET, ItemsText(items));
    if depth + 1 <= MAX_DEPTH {
      ItemsPass(items, s, j + 1, 1, depth + 1, Square);
      CountEnds(s, j + |ItemsText(items)|, depth + 1, Square);
    }
  }

  lemma MembersCount(members: Members, s: seq<byte>, j: nat, depth: int)
    requires AreShapedMembers(members) && At(s, j, [OPEN_BRACE] + MembersText(members)) && 0 <= depth <= MAX_DEPTH
    ensures j < |s|
    ensures ContainerEnd(s, j + 1, depth, Curly) ==
            if depth + 1 + MembersKindNesting(members, Curly) <= MAX_DEPTH
            then Some(j + 1 + |MembersText(members)|) else None
  {
    hide At, CountFrom, MembersText, AreShapedMembers, MembersKindNesting;
    LiteralThere(s, j, OPEN_BRACE, MembersText(members));
    if depth + 1 <= MAX_DEPTH {
      MembersPass(members, s, j + 1, 1, depth + 1, Curly);
      CountEnds(s, j + |MembersText(members)|, depth + 1, Curly);
    }
  }

  lemma EmptyCounts(space: seq<byte>, b: Kind, s: seq<byte>, j: nat, depth: int)
    requires IsSpace(space) && At(s, j, [Open(b)] + (space + [Close(b)])) && 0 <= depth <= MAX_DEPTH
    ensures j < |s|
    ensures ContainerEnd(s, j + 1, depth, b) == if depth + 1 <= MAX_DEPTH then Some(j + |space| + 2) else None
  {
    hide At, CountFrom, IsSpace;
    LiteralThere(s, j, Open(b), space + [Close(b)]);
    AtConcat(s, j + 1, space, [Close(b)]);
    AtByte(s, j + 1 + |space|, Close(b));
    if depth + 1 <= MAX_DEPTH {
      SpacePasses(space, s, j + 1, 1, depth + 1, b);
      CountEnds(s, j + 1 + |space|, depth + 1, b);
    }
  }

  lemma CountEnds(s: seq<byte>, i: nat, depth: int, b: Kind)
    requires i < |s| && s[i] == Close(b) && depth >= 1
    ensures CountFrom(s, i, 1, depth, b) == Some(i + 1)
  {
  }

  /** A run of number characters: the sloppy skipper stops behind it exactly if a delimiter stands there. */
  lemma DelimiterEndsNumber(t: seq<byte>, s: seq<byte>, j: nat)
    requires IsNumberRun(t) && At(s, j, t) && j + |t| < |s| && !IsNumberChar(s[j + |t|])
    ensures j + 1 <= |s| && (DelimiterEnd(s, j + 1) == j + |t| <==> IsDelimiter(s[j + |t|]))
  {
    hide IsNumberRun, NumberEnd;
    RunThere(t, s, j);
    if IsDelimiter(s[j + |t|]) {
      DelimiterEndIs(s, j + 1, j + |t|);
    }
  }

  lemma {:induction false} DelimiterEndIs(s: seq<byte>, i: nat, e: nat)
    requires i <= e < |s| && IsDelimiter(s[e])
    requires forall k :: i <= k < e ==> !IsDelimiter(s[k])
    ensures DelimiterEnd(s, i) == e
    decreases e - i
  {
  }

  // ---------- The sloppy Skip ----------

  /** The switch of `Skip` with the sloppy skippers, on the value whose first character is at `j`. */
  function SloppyFrom(s: seq<byte>, j: nat, depth: int, m: Mode): Scan<Value>
    requires j < |s|
  {
    var c := s[j];
    if c == QUOTE then Ending(StringEnd(s, j + 1))
    else if c == LOWER_N then LiteralAt(s, j + 1, ULL, Null, m)
    else if c == LOWER_T then LiteralAt(s, j + 1, RUE, Bool(true), m)
    else if c == LOWER_F then LiteralAt(s, j + 1, ALSE, Bool(false), m)
    else if c == ZERO then NumberValueAt(s, j, m)
    else if StartsNumber(c) then
      var e := DelimiterEnd(s, j + 1);
      if e < |s| then Done(Nothing, e) else Fails
    else if c == OPEN_BRACKET then Ending(ContainerEnd(s, j + 1, depth, Square))
    else if c == OPEN_BRACE then Ending(ContainerEnd(s, j + 1, depth, Curly))
    else Fails
  }

  function Ending(end: Option<nat>): Scan<Value> {
    match end
    case Some(e) => Done(Nothing, e)
    case None => Fails
  }

  /** A number that begins with a digit other than zero, or with a minus sign, is skipped to the next delimiter. */
  predicate IsScanned(s: seq<byte>, j: nat)
    requires j < |s|
  {
    StartsNumber(s[j]) && s[j] != ZERO
  }

  /** What the sloppy skipper needs behind a number: a delimiter; or behind a zero, what the float reader needs. */
  predicate NumberPasses(d: Doc, j: nat, next: Option<byte>, m: Mode) {
    d.DNumber? ==>
      && next.Some?
      && if d.text != [] && d.text[0] == ZERO then IsTakenNumber(d.text, j, next, m) else IsDelimiter(next.value)
  }

  /**
   * The sloppy skipper stops just behind every shaped document nested within the limit. Its numbers do not
   * matter, unless the document itself is one.
   */
  lemma SloppyThere(d: Doc, s: seq<byte>, j: nat, depth: int, m: Mode)
    requires IsShaped(d) && At(s, j, Text(d)) && 0 <= depth && depth + Nesting(d) <= MAX_DEPTH
    requires m.visitor.Skipping? && NumberPasses(d, j, ByteAt(s, j + |Text(d)|), m)
    ensures j < |s| && SloppyFrom(s, j, depth, m) == Done(Nothing, j + |Text(d)|)
  {
    hide At, ContainerEnd, StringEnd, RawEnd, Decode, IsTakenNumber, IsNumberRun, NumberValueAt, IsSpace, ItemsText,
         MembersText, IsStringBody, NumberEnd;
    KindOf(d, s, j);
    match d {
      case DNull => LiteralThere(s, j, LOWER_N, ULL);
      case DTrue => LiteralThere(s, j, LOWER_T, RUE);
      case DFalse => LiteralThere(s, j, LOWER_F, ALSE);
      case DNumber(text) => SloppyNumberThere(text, s, j, m);
      case DString(body) =>
        QuotedThere(body, s, j);
        RawEndIsStringEnd(s, j + 1);
      case _ =>
        KindNestingIsLess(d, KindCounted(d));
        CountingEndsAtDocument(d, s, j, depth);
    }
  }

  lemma SloppyNumberThere(text: seq<byte>, s: seq<byte>, j: nat, m: Mode)
    requires IsNumberRun(text) && At(s, j, text) && m.visitor.Skipping?
    requires NumberPasses(DNumber(text), j, ByteAt(s, j + |text|), m)
    ensures j < |s| && StartsNumber(s[j])
    ensures s[j] == ZERO ==> NumberValueAt(s, j, m) == Done(Nothing, j + |text|)
    ensures s[j] != ZERO ==> DelimiterEnd(s, j + 1) == j + |text| < |s|
  {
    hide At, IsNumberRun, NumberValueAt, NumberEnd, TakenBySkip, IsNumberText;
    DelimiterIsNoNumber();
    RunThere(text, s, j);
    if s[j] == ZERO {
      NumberTakenThere(text, s, j, m);
    } else {
      DelimiterEndsNumber(text, s, j);
    }
  }

  lemma DelimiterIsNoNumber()
    ensures forall c: byte :: IsDelimiter(c) ==> !IsNumberChar(c)
  {
  }

  /**
   * The two skippers stop at one byte exactly where a document whose numbers are taken ends there, nested within
   * the limit; a number by itself that is scanned needs a delimiter behind it. `AcceptTheorems` tells which of
   * these documents are JSON.
   */
  lemma SkippersAgreeIff(s: seq<byte>, j: nat, e: nat, depth: int, m: Mode)
    requires j < |s| && 0 <= depth <= MAX_DEPTH && m.visitor.Skipping?
    ensures SloppyFrom(s, j, depth, m) == ValueFrom(s, j, depth, m) == Done(Nothing, e) <==>
            && (exists d :: StandsAt(d, s, j, e, depth, m))
            && (IsScanned(s, j) ==> e < |s| && IsDelimiter(s[e]))
  {
    hide SloppyFrom, ValueFrom, StandsAt, ValueOf, NumberPasses;
    if ValueFrom(s, j, depth, m) == Done(Nothing, e) {
      var d := TakenDoc(s, j, depth, m);
      if IsScanned(s, j) {
        ScannedIff(d, s, j, e, depth, m);
      } else {
        UnscannedPasses(d, s, j, e, depth, m);
      }
    }
    if d :| StandsAt(d, s, j, e, depth, m) {
      TakenIff(s, j, depth, m, ValueOf(d, m), e);
      SkippedIsNothing(s, j, depth, m);
    }
  }

  lemma UnscannedPasses(d: Doc, s: seq<byte>, j: nat, e: nat, depth: int, m: Mode)
    requires j < |s| && 0 <= depth && StandsAt(d, s, j, e, depth, m) && m.visitor.Skipping? && !IsScanned(s, j)
    ensures SloppyFrom(s, j, depth, m) == Done(Nothing, e)
  {
    hide At, SloppyFrom, Text, Nesting, IsTakenNumber, IsShaped;
    KindOf(d, s, j);
    if d.DNumber? {
      TakenStart(d, s, j, ByteAt(s, e), m);
    }
    SloppyThere(d, s, j, depth, m);
  }

  lemma TakenStart(d: Doc, s: seq<byte>, j: nat, next: Option<byte>, m: Mode)
    requires j < |s| && d.DNumber? && At(s, j, Text(d)) && IsTaken(d, j, next, m)
    ensures IsTakenNumber(d.text, j, next, m) && IsNumberRun(d.text) && next.Some? && !IsNumberChar(next.value)
    ensures d.text[0] == s[j]
  {
    hide At;
    AtIndex(s, j, d.text, 0);
  }

  lemma ScannedIff(d: Doc, s: seq<byte>, j: nat, e: nat, depth: int, m: Mode)
    requires j < |s| && StandsAt(d, s, j, e, depth, m) && m.visitor.Skipping? && IsScanned(s, j)
    ensures e < |s| && (SloppyFrom(s, j, depth, m) == Done(Nothing, e) <==> IsDelimiter(s[e]))
  {
    hide At, Nesting, IsTakenNumber, IsNumberRun, IsShaped, IsTaken, NumbersTaken, NumberValueAt, ContainerEnd,
         StringEnd;
    KindHere(d, s, j, e, depth, m);
    TakenStart(d, s, j, ByteAt(s, e), m);
    DelimiterEndsNumber(d.text, s, j);
  }

  lemma KindHere(d: Doc, s: seq<byte>, j: nat, e: nat, depth: int, m: Mode)
    requires j < |s| && StandsAt(d, s, j, e, depth, m) && StartsNumber(s[j])
    ensures d.DNumber?
  {
    hide At, Text, IsShaped;
    KindOf(d, s, j);
  }

  lemma SkippedIsNothing(s: seq<byte>, j: nat, depth: int, m: Mode)
    requires j < |s| && m.visitor.Skipping?
    ensures ValueFrom(s, j, depth, m).Done? ==> ValueFrom(s, j, depth, m).value == Nothing
  {
    hide ArrayAt, ObjectAt;
  }

  /**
   * What the strict skipper takes, the sloppy one takes to the same byte; only a number by itself that is scanned
   * needs a delimiter for that.
   */
  lemma StrictIsSloppy(s: seq<byte>, j: nat, depth: int, m: Mode)
    requires j < |s| && 0 <= depth <= MAX_DEPTH && m.visitor.Skipping? && ValueFrom(s, j, depth, m).Done?
    ensures var e := ValueFrom(s, j, depth, m).next;
      SloppyFrom(s, j, depth, m) == Done(Nothing, e) <==> (IsScanned(s, j) ==> e < |s| && IsDelimiter(s[e]))
  {
    hide SloppyFrom, ValueFrom, StandsAt, ValueOf;
    var e := ValueFrom(s, j, depth, m).next;
    SkippedIsNothing(s, j, depth, m);
    TakenIff(s, j, depth, m, Nothing, e);
    SkippersAgreeIff(s, j, e, depth, m);
  }

  /** On every well-formed document, numbers that can be skipped, both skippers stop just behind it. */
  lemma SloppyIsStrict(d: Doc, s: seq<byte>, j: nat, depth: int, m: Mode)
    requires WellFormed(d) && IsSkippable(d, m) && At(s, j, Text(d)) && 0 <= depth && depth + Nesting(d) <= MAX_DEPTH
    requires m.visitor.Skipping?
    requires var e := j + |Text(d)|; d.DNumber? ==> e < |s| && IsDelimiter(s[e])
    ensures j < |s|
    ensures SloppyFrom(s, j, depth, m) == ValueFrom(s, j, depth, m) == Done(Nothing, j + |Text(d)|)
  {
    hide At, SloppyFrom, ValueFrom, Text, Nesting, WellFormed, IsShaped, NumbersTaken, IsSkippable, ValueOf;
    var e := j + |Text(d)|;
    SkippableIsTaken(d, j, ByteAt(s, e), m);
    TakenThere(d, s, j, depth, m);
    SkippedIsNothing(s, j, depth, m);
    KindOf(d, s, j);
    assert StandsAt(d, s, j, e, depth, m);
    SkippersAgreeIff(s, j, e, depth, m);
  }

  /** The converse fails: counting brackets skips `[}]`, which is no JSON text. */
  lemma SloppyTakesMore(m: Mode)
    requires m.visitor.Skipping?
    ensures var s := [OPEN_BRACKET, CLOSE_BRACE, CLOSE_BRACKET];
      SloppyFrom(s, 0, 0, m) == Done(Nothing, 3) && ValueFrom(s, 0, 0, m) == Fails
  {
    var s := [OPEN_BRACKET, CLOSE_BRACE, CLOSE_BRACKET];
    assert CountFrom(s, 2, 1, 1, Square) == Some(3);
    assert SkipWhitespace(s, 0) == 0 && SkipWhitespace(s, 1) == 1;
    assert ValueFrom(s, 1, 1, m) == Fails;
    assert Elements(s, 1, 1, m) == Fails;
    assert AfterBracket(s, 1, 0, m) == Fails;
  }
}

/** Lazy path lookup on a whole text: pulling fields and elements one at a time, and what a path reaches. */
module LookupMachines {
  import opened Bytes
  import opened StringMachines
  import opened FloatMachines
  import opened IterCore
  import opened NumberSkips
  import opened ValueMachines
  import opened Grammar
  import opened DocTheorems
  import opened AcceptTheorems

  /** What one call of `ReadObjectRaw` or `ReadArray` finds: one more, the end, or an error. */
  datatype Pull<+T> = Found(value: T, next: nat) | Ended(next: nat) | Broken

  // ---------- Pulling ----------

  function ColonAt(s: seq<byte>, i: nat, key: seq<byte>): (r: Pull<seq<byte>>)
    requires i <= |s|
    ensures r.Found? ==> i < r.next <= |s|
  {
    var t := SkipWhitespace(s, i);
    if t < |s| && s[t] == COLON then Found(key, t + 1) else Broken
  }

  /** `ReadObjectRaw` at `i`: it keeps no state, so the token there decides. */
  function FieldAt(s: seq<byte>, i: nat): (r: Pull<seq<byte>>)
    requires i <= |s|
    ensures r.Found? ==> i < r.next <= |s|
  {
    var j := SkipWhitespace(s, i);
    if j == |s| then Broken
    else if s[j] == OPEN_BRACE then FirstFieldAt(s, j + 1)
    else if s[j] == COMMA then NextFieldAt(s, j + 1)
    else if s[j] == CLOSE_BRACE then Ended(j + 1)
    else if s[j] == LOWER_N && At(s, j + 1, ULL) then Ended(j + 4)
    else Broken
  }

  function FirstFieldAt(s: seq<byte>, i: nat): (r: Pull<seq<byte>>)
    requires i <= |s|
    ensures r.Found? ==> i < r.next <= |s|
  {
    var k := SkipWhitespace(s, i);
    if k < |s| && s[k] == QUOTE then
      match Decode(s, k + 1)
      case Ok(key, next) => ColonAt(s, next, key)
      case Bad => Broken
    else if k < |s| && s[k] == CLOSE_BRACE then Ended(k + 1)
    else Broken
  }

  /** A null behind a comma is a nil name, which ends the object for the caller. */
  function NextFieldAt(s: seq<byte>, i: nat): (r: Pull<seq<byte>>)
    requires i <= |s|
    ensures r.Found? ==> i < r.next <= |s|
  {
    match RawTokenAt(s, i)
    case RawText(from, to) =>
      RawTokenDecodes(s, i);
      ColonAt(s, to, Decode(s, from).value)
    case RawNull(to) => (match ColonAt(s, to, []) case Found(_, next) => Ended(next) case _ => Broken)
    case RawError => Broken
  }

  /** `ReadArray` at `i`. */
  function ElementAt(s: seq<byte>, i: nat): (r: Pull<()>)
    requires i <= |s|
    ensures r.Found? ==> i < r.next <= |s|
  {
    var j := SkipWhitespace(s, i);
    if j == |s| then Broken
    else if s[j] == OPEN_BRACKET then
      var k := SkipWhitespace(s, j + 1);
      if k == |s| then Broken else if s[k] == CLOSE_BRACKET then Ended(k + 1) else Found((), k)
    else if s[j] == COMMA then Found((), j + 1)
    else if s[j] == CLOSE_BRACKET then Ended(j + 1)
    else if s[j] == LOWER_N && At(s, j + 1, ULL) then Ended(j + 4)
    else Broken
  }

  // ---------- Finding ----------

  /** `findObjectField`: fields are skipped until one is named `name`. */
  function FindField(s: seq<byte>, i: nat, name: seq<byte>, depth: int, m: Mode): (r: Scan<bool>)
    requires i <= |s|
    ensures r.Done? && r.value ==> i < r.next <= |s|
    decreases |s| - i
  {
    match FieldAt(s, i)
    case Broken => Fails
    case Ended(next) => Done(false, next)
    case Found(key, next) =>
      if key == name then Done(true, next)
      else
        match ValueAt(s, next, depth, m)
        case Done(_, e) => FindField(s, e, name, depth, m)
        case Fails => Fails
  }

  /** `findArrayElement`, when `n` elements are passed. */
  function FindElement(s: seq<byte>, i: nat, n: nat, target: int, depth: int, m: Mode): (r: Scan<bool>)
    requires i <= |s|
    ensures r.Done? && r.value ==> i < r.next <= |s|
    decreases |s| - i
  {
    match ElementAt(s, i)
    case Broken => Fails
    case Ended(next) => Done(false, next)
    case Found(_, next) =>
      if n == target then Done(true, next)
      else
        match ValueAt(s, next, depth, m)
        case Done(_, e) => FindElement(s, e, n + 1, target, depth, m)
        case Fails => Fails
  }

  /** An element of a path; `OtherStep` is any Go value that is neither a string nor an int. */
  datatype Step = Key(name: seq<byte>) | Index(n: int) | OtherStep

  function FindStep(s: seq<byte>, i: nat, step: Step, depth: int, m: Mode): (r: Scan<bool>)
    requires i <= |s|
    ensures r.Done? && r.value ==> i < r.next <= |s|
  {
    match step
    case Key(name) => FindField(s, i, name, depth, m)
    case Index(n) => FindElement(s, i, 0, n, depth, m)
    case OtherStep => Done(false, i)
  }

  /** The loop of `locatePath`: whether the path is there, and the position of its value. */
  function Locate(s: seq<byte>, i: nat, path: seq<Step>, depth: int, m: Mode): (r: Scan<bool>)
    requires i <= |s|
    ensures r.Done? && r.value ==> i <= r.next <= |s|
    decreases |path|
  {
    if path == [] then Done(true, i)
    else
      match FindStep(s, i, path[0], depth, m)
      case Done(true, next) => Locate(s, next, path[1..], depth, m)
      case Done(false, next) => Done(false, next)
      case Fails => Fails
  }

  // ---------- Lookup in a document ----------

  /** The first member of that name; names are compared decoded, and a null for a name ends the search. */
  function FindMember(members: Grammar.Members, name: seq<byte>): Option<Doc> {
    if NameOf(members.name) == name then Some(members.value)
    else if members.Member? && members.rest.name.Body? then FindMember(members.rest, name)
    else None
  }

  function FindItem(items: Items, n: int): Option<Doc> {
    if n == 0 then Some(items.value) else if items.Item? then FindItem(items.rest, n - 1) else None
  }

  function DocStep(d: Doc, step: Step): Option<Doc> {
    match step
    case Key(name) => if d.DObject? then FindMember(d.members, name) else None
    case Index(n) => if d.DArray? then FindItem(d.items, n) else None
    case OtherStep => None
  }

  /** What a path leads to in a document. */
  function DocAt(d: Doc, path: seq<Step>): Option<Doc>
    decreases |path|
  {
    if path == [] then Some(d)
    else
      match DocStep(d, path[0])
      case Some(sub) => DocAt(sub, path[1..])
      case None => None
  }

  // ---------- The lookup of a valid document ----------

  /** Behind `i` and whitespace stands the value `d`, numbers that are taken, and a delimiter behind that. */
  predicate ValueBehind(s: seq<byte>, i: nat, d: Doc, m: Mode)
    requires i <= |s|
  {
    var j := SkipWhitespace(s, i);
    && At(s, j, Text(d)) && j + |Text(d)| < |s| && IsDelimiter(s[j + |Text(d)|])
    && IsTaken(d, j, ByteAt(s, j + |Text(d)|), m)
  }

  /** A document at `j` in which every value can be skipped; what stands behind it does not matter. */
  predicate IsSearchable(d: Doc, j: nat, m: Mode) {
    IsShaped(d) && (!d.DNumber? ==> NumbersTaken(d, j, None, m))
  }

  lemma TakenIsSearchable(d: Doc, j: nat, next: Option<byte>, m: Mode)
    requires IsTaken(d, j, next, m)
    ensures IsSearchable(d, j, m)
  {
  }

  predicate IsLookup(s: seq<byte>, r: Scan<bool>, d: Option<Doc>, depth: int, m: Mode) {
    match d
    case Some(sub) =>
      && r.Done? && r.value && r.next <= |s| && ValueBehind(s, r.next, sub, m) && depth + Nesting(sub) <= MAX_DEPTH
    case None => r.Fails? || (r.Done? && !r.value)
  }

  /** The value of the first member, looked at as the value behind its colon. */
  lemma MemberValueBehind(members: Grammar.Members, s: seq<byte>, n: nat, m: Mode)
    requires AreShapedMembers(members) && MemberNumbersTaken(members, n, m) && At(s, n, AfterName(members))
    ensures n <= |s|
    ensures var t := SkipWhitespace(s, n); t < |s| && s[t] == COLON && ValueBehind(s, t + 1, members.value, m)
  {
    hide At, AfterName, AfterMember, Text, IsShaped, NumbersTaken, IsSpace, IsName, MembersText, SkipWhitespace,
         NameText, MemberNext, IsDelimiter, ValueFrom, ValueAt, FirstNameEnd, IsStringBody;
    MemberStands(members, s, n, 0, m);
    NextIsDelimiter(members);
  }

  lemma NextIsDelimiter(members: Grammar.Members)
    requires IsSpace(members.after)
    ensures IsDelimiter(MemberNext(members))
  {
  }

  /** A name behind a comma, as `ReadObjectRaw` takes it. */
  lemma CommaField(members: Grammar.Members, s: seq<byte>, k: nat)
    requires AreShapedMembers(members) && k < |s| && s[k] == COMMA && At(s, k + 1, MembersText(members))
    ensures var n := k + 1 + |members.before| + |NameText(members.name)|;
      && n <= |s| && At(s, n, AfterName(members))
      && (members.name.Body? ==> FieldAt(s, k) == ColonAt(s, n, NameOf(members.name)))
      && (members.name.NullName? ==>
            FieldAt(s, k) == match ColonAt(s, n, []) case Found(_, next) => Ended(next) case _ => Broken)
  {
    hide At, AfterName, MembersText, Decode, RawEnd, StringOf, ColonAt, FieldAt, NameText, SkipWhitespace;
    NameThere(members, s, k + 1);
    AtComma(s, k);
  }

  lemma AtComma(s: seq<byte>, k: nat)
    requires k < |s| && s[k] == COMMA
    ensures FieldAt(s, k) == NextFieldAt(s, k + 1)
  {
    hide At, FirstFieldAt, NextFieldAt;
    SkipNothing(s, k);
  }

  lemma BraceField(members: Grammar.Members, s: seq<byte>, j: nat)
    requires AreShapedMembers(members) && members.name.Body? && At(s, j, [OPEN_BRACE] + MembersText(members))
    ensures var n := j + 1 + |members.before| + |NameText(members.name)|;
      n <= |s| && At(s, n, AfterName(members)) && FieldAt(s, j) == ColonAt(s, n, NameOf(members.name))
  {
    hide At, AfterName, MembersText, Decode, RawEnd, StringOf, ColonAt, FieldAt, NameText, SkipWhitespace;
    LiteralThere(s, j, OPEN_BRACE, MembersText(members));
    NameThere(members, s, j + 1);
    AtBrace(s, j);
  }

  lemma AtBrace(s: seq<byte>, j: nat)
    requires j < |s| && s[j] == OPEN_BRACE
    ensures FieldAt(s, j) == FirstFieldAt(s, j + 1)
  {
    hide At, FirstFieldAt, NextFieldAt;
    SkipNothing(s, j);
  }

  lemma FieldSkipsSpace(s: seq<byte>, i: nat)
    requires i <= |s|
    ensures FieldAt(s, i) == FieldAt(s, SkipWhitespace(s, i))
    ensures ElementAt(s, i) == ElementAt(s, SkipWhitespace(s, i))
  {
    hide FirstFieldAt, NextFieldAt, At;
    SkipWhitespaceUnique(s, SkipWhitespace(s, i), SkipWhitespace(s, i));
  }

  /** `findObjectField` from a field on whose name ends at `n`. */
  lemma {:induction false} FindInMembers(
      members: Grammar.Members, s: seq<byte>, i: nat, n: nat, name: seq<byte>, depth: int, m: Mode)
    requires AreShapedMembers(members) && MemberNumbersTaken(members, n, m)
    requires depth + MembersNesting(members) <= MAX_DEPTH
    requires i <= |s| && n <= |s| && At(s, n, AfterName(members))
    requires FieldAt(s, i) == ColonAt(s, n, NameOf(members.name))
    ensures IsLookup(s, FindField(s, i, name, depth, m), FindMember(members, name), depth, m)
    decreases members
  {
    hide At, AfterName, MembersText, ValueBehind, FieldAt, ValueAt, IsShaped, NumbersTaken, Nesting, StringOf,
         ValueOf, IsSpace, IsName, AfterMember, SkipWhitespace, NameText, MemberNext, Text;
    FieldThere(members, s, n, depth, m);
    MemberValueBehind(members, s, n, m);
    if NameOf(members.name) != name {
      var e := ValueAt(s, SkipWhitespace(s, n) + 1, depth, m).next;
      var k := SkipWhitespace(s, e);
      FieldSkipsSpace(s, e);
      if members.Member? {
        CommaField(members.rest, s, k);
        if members.rest.name.Body? {
          var n' := k + 1 + |members.rest.before| + |NameText(members.rest.name)|;
          FindInMembers(members.rest, s, e, n', name, depth, m);
        }
      } else {
        ClosedField(s, k);
      }
    }
  }

  lemma ClosedField(s: seq<byte>, k: nat)
    requires k < |s|
    ensures s[k] == CLOSE_BRACE ==> FieldAt(s, k) == Ended(k + 1)
    ensures s[k] == CLOSE_BRACKET ==> ElementAt(s, k) == Ended(k + 1)
    ensures s[k] == COMMA ==> ElementAt(s, k) == Found((), k + 1)
  {
    hide At;
    if !IsWhitespace(s[k]) {
      SkipNothing(s, k);
    }
  }

  lemma ItemValueBehind(items: Items, s: seq<byte>, i: nat, p: nat, m: Mode)
    requires AreShapedItems(items) && ItemNumbersTaken(items, i, m)
    requires p <= |s| && SkipWhitespace(s, p) == i + |items.before|
    requires At(s, SkipWhitespace(s, p), Text(items.value) + AfterItem(items))
    ensures ValueBehind(s, p, items.value, m)
  {
    hide At, ItemsText, IsShaped, NumbersTaken, Text, AfterItem;
    ItemSplit(items, s, SkipWhitespace(s, p));
  }

  /** What `ReadArray` finds behind an element that ends at `e`. */
  lemma BehindElement(items: Items, s: seq<byte>, j: nat)
    requires AreShapedItems(items) && At(s, j, Text(items.value) + AfterItem(items))
    ensures var e := j + |Text(items.value)|;
      && e <= |s|
      && if items.LastItem? then ElementAt(s, e) == Ended(e + |items.after| + 1)
         else && ElementAt(s, e).Found?
              && var p := ElementAt(s, e).next;
              && SkipWhitespace(s, p) == e + |items.after| + 1 + |items.rest.before|
              && At(s, SkipWhitespace(s, p), Text(items.rest.value) + AfterItem(items.rest))
  {
    hide At, ElementAt, ItemsText, IsShaped, Text, AfterItem, IsSpace, IsDelimiter, ItemNext, SkipWhitespace, FieldAt;
    ItemSplit(items, s, j);
    var e := j + |Text(items.value)|;
    FieldSkipsSpace(s, e);
    ClosedField(s, SkipWhitespace(s, e));
    if items.Item? {
      ItemsBegin(items.rest, s, SkipWhitespace(s, e) + 1);
    }
  }

  /** An element of the list at `i` that stands behind `p`, and what `ReadArray` finds behind it. */
  lemma ElementThere(items: Items, s: seq<byte>, i: nat, p: nat, depth: int, m: Mode)
    requires AreShapedItems(items) && ItemNumbersTaken(items, i, m) && depth + ItemsNesting(items) <= MAX_DEPTH
    requires p <= |s| && SkipWhitespace(s, p) == i + |items.before|
    requires At(s, SkipWhitespace(s, p), Text(items.value) + AfterItem(items))
    ensures ValueBehind(s, p, items.value, m)
    ensures var v := ValueAt(s, p, depth, m);
      && v.Done?
      && if items.LastItem? then ElementAt(s, v.next) == Ended(v.next + |items.after| + 1)
         else && ElementAt(s, v.next).Found?
              && var p' := ElementAt(s, v.next).next;
              && SkipWhitespace(s, p') ==
                 i + |items.before| + |Text(items.value)| + |items.after| + 1 + |items.rest.before|
              && At(s, SkipWhitespace(s, p'), Text(items.rest.value) + AfterItem(items.rest))
  {
    hide At, ElementAt, ItemsText, ValueFrom, IsShaped, NumbersTaken, Nesting, Text, ValueOf, AfterItem;
    ItemValueBehind(items, s, i, p, m);
    TakenThere(items.value, s, SkipWhitespace(s, p), depth, m);
    BehindElement(items, s, SkipWhitespace(s, p));
  }

  /** `findArrayElement` from an element on that stands behind `p`; the rest of the list begins at `i0`. */
  lemma {:induction false} FindInItems(
      items: Items, s: seq<byte>, i0: nat, i: nat, p: nat, n: nat, target: int, depth: int, m: Mode)
    requires AreShapedItems(items) && ItemNumbersTaken(items, i0, m) && depth + ItemsNesting(items) <= MAX_DEPTH
    requires i <= |s| && p <= |s| && ElementAt(s, i).Found? && ElementAt(s, i).next == p
    requires SkipWhitespace(s, p) == i0 + |items.before|
    requires At(s, SkipWhitespace(s, p), Text(items.value) + AfterItem(items))
    ensures IsLookup(s, FindElement(s, i, n, target, depth, m), FindItem(items, target - n), depth, m)
    decreases items
  {
    hide At, ElementAt, ValueAt, ValueBehind, IsShaped, NumbersTaken, Nesting, Text, AfterItem;
    ElementThere(items, s, i0, p, depth, m);
    if n != target && items.Item? {
      var e := ValueAt(s, p, depth, m).next;
      var rest := i0 + |items.before| + |Text(items.value)| + |items.after| + 1;
      FindInItems(items.rest, s, rest, e, ElementAt(s, e).next, n + 1, target, depth, m);
    }
  }

  /** The first byte of a value that a field or an element cannot be pulled from. */
  lemma NothingToPull(d: Doc, s: seq<byte>, i: nat)
    requires IsShaped(d) && i <= |s| && At(s, SkipWhitespace(s, i), Text(d))
    ensures d.DEmptyObject? || d.DNull? ==> FieldAt(s, i) == Ended(SkipWhitespace(s, i) + |Text(d)|)
    ensures d.DEmptyArray? || d.DNull? ==> ElementAt(s, i) == Ended(SkipWhitespace(s, i) + |Text(d)|)
    ensures !d.DObject? && !d.DEmptyObject? && !d.DNull? ==> FieldAt(s, i).Broken?
    ensures !d.DArray? && !d.DEmptyArray? && !d.DNull? ==> ElementAt(s, i).Broken?
  {
    hide At, IsNumberRun, IsStringBody, AreShapedItems, AreShapedMembers, IsSpace;
    var j := SkipWhitespace(s, i);
    ValueBegins(d, s, j);
    AtIndex(s, j, Text(d), 0);
    match d {
      case DNumber(text) => NumberStarts(text);
      case DEmptyArray(space) => EmptyThere(space, OPEN_BRACKET, CLOSE_BRACKET, s, j);
      case DEmptyObject(space) => EmptyThere(space, OPEN_BRACE, CLOSE_BRACE, s, j);
      case DNull => LiteralThere(s, j, LOWER_N, ULL);
      case _ =>
    }
  }

  lemma NumberStarts(text: seq<byte>)
    requires IsNumberRun(text)
    ensures text != [] && StartsNumber(text[0])
  {
    hide RfcFraction, WholeEnd;
  }

  /** One step of a path, in front of a value. */
  lemma StepInDoc(d: Doc, s: seq<byte>, i: nat, step: Step, depth: int, m: Mode)
    requires i <= |s| && IsSearchable(d, SkipWhitespace(s, i), m) && depth + Nesting(d) <= MAX_DEPTH
    requires At(s, SkipWhitespace(s, i), Text(d))
    ensures IsLookup(s, FindStep(s, i, step, depth, m), DocStep(d, step), depth, m)
  {
    hide At, Text, FieldAt, ElementAt, FindMember, FindItem, ValueAt, ValueBehind, SkipWhitespace,
         IsSearchable, Nesting;
    if d.DObject? && step.Key? {
      KeyInObject(d.members, s, i, step.name, depth, m);
    } else if d.DArray? && step.Index? {
      IndexInArray(d.items, s, i, step.n, depth, m);
    } else {
      SearchableIsShaped(d, SkipWhitespace(s, i), m);
      NothingToPull(d, s, i);
    }
  }

  lemma SearchableIsShaped(d: Doc, j: nat, m: Mode)
    requires IsSearchable(d, j, m)
    ensures IsShaped(d)
  {
  }

  lemma SearchableObject(members: Grammar.Members, j: nat, m: Mode)
    requires IsSearchable(DObject(members), j, m)
    ensures members.name.Body? && AreShapedMembers(members)
    ensures MemberNumbersTaken(members, FirstNameEnd(members, j + 1), m)
    ensures Nesting(DObject(members)) == 1 + MembersNesting(members)
    ensures Text(DObject(members)) == [OPEN_BRACE] + MembersText(members)
  {
    hide AreShapedMembers, MemberNumbersTaken, MembersText, MembersNesting;
  }

  lemma SearchableArray(items: Items, j: nat, m: Mode)
    requires IsSearchable(DArray(items), j, m)
    ensures AreShapedItems(items) && ItemNumbersTaken(items, j + 1, m)
    ensures Nesting(DArray(items)) == 1 + ItemsNesting(items)
    ensures Text(DArray(items)) == [OPEN_BRACKET] + ItemsText(items)
  {
    hide AreShapedItems, ItemNumbersTaken, ItemsText, ItemsNesting;
  }

  lemma KeyInObject(members: Grammar.Members, s: seq<byte>, i: nat, name: seq<byte>, depth: int, m: Mode)
    requires i <= |s| && IsSearchable(DObject(members), SkipWhitespace(s, i), m)
    requires depth + Nesting(DObject(members)) <= MAX_DEPTH && At(s, SkipWhitespace(s, i), Text(DObject(members)))
    ensures IsLookup(s, FindField(s, i, name, depth, m), FindMember(members, name), depth, m)
  {
    hide At, MembersText, FieldAt, ElementAt, AreShapedMembers, MemberNumbersTaken, MembersNesting, FindField,
         FindMember, AfterName, NameText, ColonAt, SkipWhitespace, IsLookup, IsSearchable, Text, Nesting;
    var j := SkipWhitespace(s, i);
    SearchableObject(members, j, m);
    FieldSkipsSpace(s, i);
    BraceField(members, s, j);
    FindInMembers(members, s, i, FirstNameEnd(members, j + 1), name, depth, m);
  }

  lemma IndexInArray(items: Items, s: seq<byte>, i: nat, n: int, depth: int, m: Mode)
    requires i <= |s| && IsSearchable(DArray(items), SkipWhitespace(s, i), m)
    requires depth + Nesting(DArray(items)) <= MAX_DEPTH && At(s, SkipWhitespace(s, i), Text(DArray(items)))
    ensures IsLookup(s, FindElement(s, i, 0, n, depth, m), FindItem(items, n), depth, m)
  {
    hide At, ItemsText, ElementAt, FieldAt, AreShapedItems, ItemNumbersTaken, ItemsNesting, FindElement, FindItem,
         AfterItem, SkipWhitespace, IsLookup, IsSearchable, Text, Nesting;
    var j := SkipWhitespace(s, i);
    SearchableArray(items, j, m);
    FieldSkipsSpace(s, i);
    BracketElement(items, s, j);
    FindInItems(items, s, j + 1, i, j + 1 + |items.before|, 0, n, depth, m);
  }

  lemma BracketElement(items: Items, s: seq<byte>, j: nat)
    requires AreShapedItems(items) && At(s, j, [OPEN_BRACKET] + ItemsText(items))
    ensures var p := j + 1 + |items.before|;
      && p < |s| && ElementAt(s, j) == Found((), p) && SkipWhitespace(s, p) == p
      && At(s, p, Text(items.value) + AfterItem(items))
  {
    hide At, ItemsText, Text, AfterItem, AreShapedItems;
    LiteralThere(s, j, OPEN_BRACKET, ItemsText(items));
    ItemsBegin(items, s, j + 1);
    SkipNothing(s, j);
    SkipNothing(s, j + 1 + |items.before|);
  }

  /**
   * On a valid document, `locatePath` stands in front of exactly the value that the path leads to, and reports
   * the path as missing exactly when the document has no such value.
   */
  lemma {:induction false} LocateInDoc(d: Doc, s: seq<byte>, i: nat, path: seq<Step>, depth: int, m: Mode)
    requires i <= |s| && IsSearchable(d, SkipWhitespace(s, i), m) && depth + Nesting(d) <= MAX_DEPTH && path != []
    requires At(s, SkipWhitespace(s, i), Text(d))
    ensures IsLookup(s, Locate(s, i, path, depth, m), DocAt(d, path), depth, m)
    decreases |path|
  {
    hide At, Text, IsShaped, NumbersTaken, Nesting, FindStep, DocStep;
    StepInDoc(d, s, i, path[0], depth, m);
    var sub := DocStep(d, path[0]);
    if sub.Some? && |path| > 1 {
      var j := SkipWhitespace(s, FindStep(s, i, path[0], depth, m).next);
      TakenIsSearchable(sub.value, j, ByteAt(s, j + |Text(sub.value)|), m);
      LocateInDoc(sub.value, s, FindStep(s, i, path[0], depth, m).next, path[1..], depth, m);
    }
  }

  // ---------- Lookup agrees with reading ----------

  /** The last member of that name. */
  function LastMemberOf(members: Grammar.Members, name: seq<byte>): Option<Doc> {
    var later := if members.Member? then LastMemberOf(members.rest, name) else None;
    if later.Some? then later else if NameOf(members.name) == name then Some(members.value) else None
  }

  /** `Read` keeps the last field of a name. */
  lemma {:induction false} ReadKeepsLast(members: Grammar.Members, name: seq<byte>, m: Mode)
    ensures var fm := FieldMap(FieldsOf(members, m));
      var last := LastMemberOf(members, name);
      (name in fm <==> last.Some?) && (last.Some? ==> fm[name] == ValueOf(last.value, m))
    decreases members
  {
    hide NameOf, ValueOf;
    var all := FieldsOf(members, m);
    if members.Member? {
      ReadKeepsLast(members.rest, name, m);
      assert all[1..] == FieldsOf(members.rest, m);
    } else {
      assert all[1..] == [];
    }
  }

  /** No object has two members whose names decode to the same string, or a null for a name. */
  predicate NamesDiffer(d: Doc) {
    match d
    case DArray(items) => ItemNamesDiffer(items)
    case DObject(members) => MemberNamesDiffer(members)
    case _ => true
  }

  predicate ItemNamesDiffer(items: Items) {
    NamesDiffer(items.value) && (items.Item? ==> ItemNamesDiffer(items.rest))
  }

  predicate MemberNamesDiffer(members: Grammar.Members) {
    && members.name.Body? && NamesDiffer(members.value)
    && (members.Member? ==> MemberNamesDiffer(members.rest) && FindMember(members.rest, NameOf(members.name)).None?)
  }

  /** Where names differ the first member of a name is the last one, and its own names differ. */
  lemma {:induction false} FirstIsLast(members: Grammar.Members, name: seq<byte>)
    requires MemberNamesDiffer(members)
    ensures FindMember(members, name) == LastMemberOf(members, name)
    ensures FindMember(members, name).Some? ==> NamesDiffer(FindMember(members, name).value)
    decreases members
  {
    hide StringOf;
    if members.Member? {
      FirstIsLast(members.rest, name);
    }
  }

  lemma {:induction false} ItemIsElement(items: Items, n: int, m: Mode)
    requires ItemNamesDiffer(items)
    ensures var vs := ItemValues(items, m);
      && (FindItem(items, n).Some? <==> 0 <= n < |vs|)
      && (0 <= n < |vs| ==> vs[n] == ValueOf(FindItem(items, n).value, m) && NamesDiffer(FindItem(items, n).value))
    decreases items
  {
    hide ValueOf;
    if items.Item? {
      ItemIsElement(items.rest, n - 1, m);
    }
  }

  /** A path in a value that was read. */
  function ValueGet(v: Value, path: seq<Step>): Option<Value> {
    if path == [] then Some(v)
    else
      match path[0]
      case Key(name) => if v.Obj? && name in v.fields then ValueGet(v.fields[name], path[1..]) else None
      case Index(n) => if v.Arr? && 0 <= n < |v.items| then ValueGet(v.items[n], path[1..]) else None
      case OtherStep => None
  }

  /** The value of what a path leads to in the text. */
  function DocGet(d: Doc, path: seq<Step>, m: Mode): Option<Value> {
    match DocAt(d, path)
    case Some(sub) => Some(ValueOf(sub, m))
    case None => None
  }

  /** Looking a path up in the text and in what `Read` makes of it comes to the same, where names differ. */
  lemma {:induction false} LookupIsReadThenGet(d: Doc, path: seq<Step>, m: Mode)
    requires NamesDiffer(d) && m.visitor.Reading?
    ensures ValueGet(ValueOf(d, m), path) == DocGet(d, path, m)
    decreases |path|
  {
    if path != [] {
      match path[0] {
        case Key(name) =>
          if d.DObject? {
            ReadKeepsLast(d.members, name, m);
            FirstIsLast(d.members, name);
          }
        case Index(n) =>
          if d.DArray? {
            ItemIsElement(d.items, n, m);
          }
        case OtherStep =>
      }
      var sub := DocStep(d, path[0]);
      if sub.Some? {
        LookupIsReadThenGet(sub.value, path[1..], m);
      }
    }
  }

  // ---------- Exactly where they agree ----------

  /**
   * Under every name of every object that lookup reaches, the first member is found and its value is that of the
   * last.
   */
  predicate FirstsAreLasts(d: Doc, m: Mode) {
    match d
    case DArray(items) => ItemFirstsAreLasts(items, m)
    case DObject(members) => MemberFirstsAreLasts(members, members, m)
    case _ => true
  }

  predicate ItemFirstsAreLasts(items: Items, m: Mode) {
    FirstsAreLasts(items.value, m) && (items.Item? ==> ItemFirstsAreLasts(items.rest, m))
  }

  /** The same for the names from `rest` on. */
  predicate MemberFirstsAreLasts(rest: Grammar.Members, all: Grammar.Members, m: Mode)
    decreases rest
  {
    var first, last := FindMember(all, NameOf(rest.name)), LastMemberOf(all, NameOf(rest.name));
    && first.Some? && last.Some? && ValueOf(first.value, m) == ValueOf(last.value, m)
    && (first.value == rest.value ==> FirstsAreLasts(rest.value, m))
    && (rest.Member? ==> MemberFirstsAreLasts(rest.rest, all, m))
  }

  /** A name that has a last member among `rest`. */
  lemma {:induction false} NameHasFirst(rest: Grammar.Members, all: Grammar.Members, name: seq<byte>, m: Mode)
    requires MemberFirstsAreLasts(rest, all, m) && LastMemberOf(rest, name).Some?
    ensures var first, last := FindMember(all, name), LastMemberOf(all, name);
      first.Some? && last.Some? && ValueOf(first.value, m) == ValueOf(last.value, m)
    decreases rest
  {
    hide ValueOf, FirstsAreLasts, NameOf;
    if NameOf(rest.name) != name {
      NameHasFirst(rest.rest, all, name, m);
    } else if rest.Member? && LastMemberOf(rest.rest, name).Some? {
      NameHasFirst(rest.rest, all, name, m);
    }
  }

  /** What is found from `rest` on, when nothing before it has that name. */
  lemma {:induction false} FirstAgrees(rest: Grammar.Members, all: Grammar.Members, name: seq<byte>, m: Mode)
    requires MemberFirstsAreLasts(rest, all, m) && FindMember(rest, name) == FindMember(all, name)
    ensures FindMember(all, name).Some? ==> FirstsAreLasts(FindMember(all, name).value, m)
    ensures FindMember(rest, name).Some? ==> LastMemberOf(rest, name).Some?
    decreases rest
  {
    hide ValueOf, NameOf;
    if NameOf(rest.name) != name && rest.Member? && rest.rest.name.Body? {
      FirstAgrees(rest.rest, all, name, m);
    }
  }

  lemma {:induction false} ItemOfFirsts(items: Items, n: int, m: Mode)
    requires ItemFirstsAreLasts(items, m)
    ensures FindItem(items, n).Some? ==> FirstsAreLasts(FindItem(items, n).value, m)
    decreases items
  {
    hide FirstsAreLasts;
    if items.Item? {
      ItemOfFirsts(items.rest, n - 1, m);
    }
  }

  lemma {:induction false} ItemIs(items: Items, n: int, m: Mode)
    ensures var vs := ItemValues(items, m);
      && (FindItem(items, n).Some? <==> 0 <= n < |vs|)
      && (0 <= n < |vs| ==> vs[n] == ValueOf(FindItem(items, n).value, m))
    decreases items
  {
    hide ValueOf;
    if items.Item? {
      ItemIs(items.rest, n - 1, m);
    }
  }

  lemma {:induction false} EveryPathAgrees(d: Doc, path: seq<Step>, m: Mode)
    requires FirstsAreLasts(d, m) && m.visitor.Reading?
    ensures ValueGet(ValueOf(d, m), path) == DocGet(d, path, m)
    decreases |path|
  {
    if path != [] {
      match path[0] {
        case Key(name) =>
          if d.DObject? {
            KeyAgrees(d.members, name, m);
          }
        case Index(n) =>
          if d.DArray? {
            ItemIs(d.items, n, m);
            ItemOfFirsts(d.items, n, m);
          }
        case OtherStep =>
      }
      var sub := DocStep(d, path[0]);
      if sub.Some? {
        EveryPathAgrees(sub.value, path[1..], m);
      }
    }
  }

  lemma KeyAgrees(members: Grammar.Members, name: seq<byte>, m: Mode)
    requires MemberFirstsAreLasts(members, members, m)
    ensures var fm, first := FieldMap(FieldsOf(members, m)), FindMember(members, name);
      && (name in fm <==> first.Some?)
      && (first.Some? ==> fm[name] == ValueOf(first.value, m) && FirstsAreLasts(first.value, m))
  {
    hide ValueOf, NameOf, FieldMap, FirstsAreLasts, MemberFirstsAreLasts;
    ReadKeepsLast(members, name, m);
    FirstAgrees(members, members, name, m);
    if LastMemberOf(members, name).Some? {
      NameHasFirst(members, members, name, m);
    }
  }

  /** A path on which they differ. */
  lemma {:induction false} Disagreement(d: Doc, m: Mode) returns (path: seq<Step>)
    requires !FirstsAreLasts(d, m) && m.visitor.Reading?
    ensures ValueGet(ValueOf(d, m), path) != DocGet(d, path, m)
    decreases d, 1
  {
    hide ValueOf;
    if d.DArray? {
      var n, p := ItemDisagreement(d.items, m);
      ItemIs(d.items, n, m);
      path := [Index(n)] + p;
      assert path[1..] == p;
      ArrayGet(d.items, n, p, m);
    } else {
      path := MemberDisagreement(d.members, d.members, m);
    }
  }

  lemma ArrayGet(items: Items, n: int, p: seq<Step>, m: Mode)
    requires m.visitor.Reading? && FindItem(items, n).Some?
    ensures DocGet(DArray(items), [Index(n)] + p, m) == DocGet(FindItem(items, n).value, p, m)
    ensures ValueGet(ValueOf(DArray(items), m), [Index(n)] + p) == ValueGet(ValueOf(FindItem(items, n).value, m), p)
  {
    ItemIs(items, n, m);
    assert ([Index(n)] + p)[1..] == p;
  }

  lemma {:induction false} ItemDisagreement(items: Items, m: Mode) returns (n: nat, path: seq<Step>)
    requires !ItemFirstsAreLasts(items, m) && m.visitor.Reading?
    ensures FindItem(items, n).Some?
    ensures var sub := FindItem(items, n).value; ValueGet(ValueOf(sub, m), path) != DocGet(sub, path, m)
    decreases items, 0
  {
    hide ValueOf, FirstsAreLasts, ValueGet, DocGet;
    if !FirstsAreLasts(items.value, m) {
      n := 0;
      path := Disagreement(items.value, m);
    } else {
      n, path := ItemDisagreement(items.rest, m);
      n := n + 1;
    }
  }

  lemma {:induction false} MemberDisagreement(rest: Grammar.Members, all: Grammar.Members, m: Mode)
    returns (path: seq<Step>)
    requires !MemberFirstsAreLasts(rest, all, m) && m.visitor.Reading?
    requires forall name :: LastMemberOf(rest, name).Some? ==> LastMemberOf(all, name).Some?
    ensures ValueGet(ValueOf(DObject(all), m), path) != DocGet(DObject(all), path, m)
    decreases rest, 0
  {
    hide ValueOf, FirstsAreLasts, ValueGet, DocGet, NameOf;
    var name := NameOf(rest.name);
    var first, last := FindMember(all, name), LastMemberOf(all, name);
    assert LastMemberOf(rest, name).Some?;
    if first.Some? && ValueOf(first.value, m) == ValueOf(last.value, m) {
      if first.value == rest.value && !FirstsAreLasts(rest.value, m) {
        var p := Disagreement(rest.value, m);
        path := [Key(name)] + p;
        ObjectGet(all, name, p, m);
      } else {
        path := MemberDisagreement(rest.rest, all, m);
      }
    } else {
      path := [Key(name)];
      assert [Key(name)] + [] == path;
      ObjectGet(all, name, [], m);
      GetNothing(last.value, m);
      if first.Some? {
        GetNothing(first.value, m);
      }
    }
  }

  lemma GetNothing(d: Doc, m: Mode)
    ensures ValueGet(ValueOf(d, m), []) == DocGet(d, [], m) == Some(ValueOf(d, m))
  {
  }

  lemma ObjectGet(members: Grammar.Members, name: seq<byte>, p: seq<Step>, m: Mode)
    requires m.visitor.Reading? && LastMemberOf(members, name).Some?
    ensures ValueGet(ValueOf(DObject(members), m), [Key(name)] + p) ==
            ValueGet(ValueOf(LastMemberOf(members, name).value, m), p)
    ensures DocGet(DObject(members), [Key(name)] + p, m) ==
            if FindMember(members, name).Some? then DocGet(FindMember(members, name).value, p, m) else None
  {
    ReadKeepsLast(members, name, m);
    assert ([Key(name)] + p)[1..] == p;
  }

  /**
   * Lookup in the text and `Read` agree on every path exactly when, under every name of every object that lookup
   * reaches, the first member is found and has the value of the last.
   */
  lemma AgreeIff(d: Doc, m: Mode)
    requires m.visitor.Reading?
    ensures (forall path :: ValueGet(ValueOf(d, m), path) == DocGet(d, path, m)) <==> FirstsAreLasts(d, m)
  {
    hide ValueOf, ValueGet, DocGet, FirstsAreLasts;
    if FirstsAreLasts(d, m) {
      forall path ensures ValueGet(ValueOf(d, m), path) == DocGet(d, path, m) {
        EveryPathAgrees(d, path, m);
      }
    } else {
      var path := Disagreement(d, m);
    }
  }

  // ---------- A repeated name ----------

  /** `{"":null,"":true}` */
  const REPEATED_NAME: seq<byte> :=
    [OPEN_BRACE, QUOTE, QUOTE, COLON] + NULL_TEXT + [COMMA, QUOTE, QUOTE, COLON] + TRUE_TEXT + [CLOSE_BRACE]

  /** They differ: the path search stands in front of the first member, and `Read` keeps the last. */
  lemma RepeatedNameDiffers(m: Mode, m': Mode)
    requires m.visitor.Skipping? && m'.visitor.Reading?
    ensures Locate(REPEATED_NAME, 0, [Key([])], 0, m) == Done(true, 4) && At(REPEATED_NAME, 4, NULL_TEXT)
    ensures ValueFrom(REPEATED_NAME, 0, 0, m') == Done(Obj(map[[] := Bool(true)]), 17)
  {
    hide ValueFrom, FindField, KeyAt;
    var s := REPEATED_NAME;
    var last := LastMember([], Body([]), [], [], DTrue, []);
    var members := Member([], Body([]), [], [], DNull, [], last);
    RepeatedText(last, members);
    RepeatedFields(last, members, m');
    assert s[0..|s|] == s && |s| == 17;
    TakenThere(DObject(members), s, 0, 0, m');
    FirstFound(m);
  }

  lemma RepeatedText(last: Grammar.Members, members: Grammar.Members)
    requires last == LastMember([], Body([]), [], [], DTrue, [])
    requires members == Member([], Body([]), [], [], DNull, [], last)
    ensures [OPEN_BRACE] + MembersText(members) == REPEATED_NAME
  {
    hide MembersText;
    assert NameText(Body([])) == [QUOTE, QUOTE];
    MemberText(last, TRUE_TEXT);
    MemberText(members, NULL_TEXT);
  }

  lemma RepeatedFields(last: Grammar.Members, members: Grammar.Members, m: Mode)
    requires last == LastMember([], Body([]), [], [], DTrue, []) && m.visitor.Reading?
    requires members == Member([], Body([]), [], [], DNull, [], last)
    ensures IsTaken(DObject(members), 0, None, m) && IsTaken(DObject(members), 0, ByteAt(REPEATED_NAME, 17), m)
    ensures Nesting(DObject(members)) == 1 && ValueOf(DObject(members), m) == Obj(map[[] := Bool(true)])
  {
    hide FieldMap;
    assert [] + [QUOTE] == [QUOTE];
    assert StringOf([]) == [] && IsStringBody([]);
    assert AreShapedMembers(last) && MembersNesting(last) == 0;
    assert MemberNumbersTaken(last, 11, m);
    assert |Text(DNull)| == 4 && FirstNameEnd(members, 1) == 3 && FirstNameEnd(last, 9) == 11;
    assert MemberNumbersTaken(members, 3, m);
    var fm := FieldMap(FieldsOf(members, m));
    ReadKeepsLast(members, [], m);
    assert LastMemberOf(last, []) == Some(DTrue);
    OnlyThatName(last, members, m);
  }

  lemma OnlyThatName(last: Grammar.Members, members: Grammar.Members, m: Mode)
    requires last == LastMember([], Body([]), [], [], DTrue, []) && m.visitor.Reading?
    requires members == Member([], Body([]), [], [], DNull, [], last)
    ensures FieldMap(FieldsOf(members, m)) == map[[] := Bool(true)]
  {
    assert [] + [QUOTE] == [QUOTE];
    assert StringOf([]) == [];
    assert FieldsOf(last, m) == [([], Bool(true))];
    assert FieldsOf(members, m) == [([], Null), ([], Bool(true))];
    assert FieldsOf(members, m)[1..] == FieldsOf(last, m);
    assert FieldMap(FieldsOf(last, m)) == map[[] := Bool(true)] + FieldMap([]);
  }

  lemma FirstFound(m: Mode)
    ensures Locate(REPEATED_NAME, 0, [Key([])], 0, m) == Done(true, 4) && At(REPEATED_NAME, 4, NULL_TEXT)
  {
    var s := REPEATED_NAME;
    SkipNothing(s, 0);
    SkipNothing(s, 1);
    SkipNothing(s, 3);
    assert Decode(s, 2) == Ok([], 3);
    assert FieldAt(s, 0) == Found([], 4);
    assert [Key([])][1..] == [];
    assert s[4..8] == NULL_TEXT;
  }
}

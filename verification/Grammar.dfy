/**
 * Concrete syntax trees, their texts and their values. The well-formed ones are the JSON texts of section 2 of RFC
 * 8259; the shaped ones are what is left of that grammar in the code.
 */
module Grammar {
  import opened Bytes
  import opened StringMachines
  import opened FloatMachines
  import opened NumberSkips
  import opened IterCore
  import opened ValueMachines

  /** A value with all its whitespace; a string is kept as the text between its quotes. */
  datatype Doc =
    | DNull
    | DTrue
    | DFalse
    | DNumber(text: seq<byte>)
    | DString(body: seq<byte>)
    | DEmptyArray(space: seq<byte>)
    | DArray(items: Items)
    | DEmptyObject(space: seq<byte>)
    | DObject(members: Members)

  /** One or more elements, each with the whitespace around it. */
  datatype Items =
    | LastItem(before: seq<byte>, value: Doc, after: seq<byte>)
    | Item(before: seq<byte>, value: Doc, after: seq<byte>, rest: Items)

  /** A name: the text between its quotes, or a null, which the code takes for the empty name behind a comma. */
  datatype Name = Body(text: seq<byte>) | NullName

  /** One or more members: whitespace, name, whitespace, colon, whitespace, value, whitespace. */
  datatype Members =
    | LastMember(before: seq<byte>, name: Name, colon: seq<byte>, middle: seq<byte>, value: Doc,
                 after: seq<byte>)
    | Member(before: seq<byte>, name: Name, colon: seq<byte>, middle: seq<byte>, value: Doc,
             after: seq<byte>, rest: Members)

  // ---------- Texts ----------

  const NULL_TEXT: seq<byte> := [LOWER_N] + ULL
  const TRUE_TEXT: seq<byte> := [LOWER_T] + RUE
  const FALSE_TEXT: seq<byte> := [LOWER_F] + ALSE

  function Quoted(body: seq<byte>): seq<byte> {
    [QUOTE] + (body + [QUOTE])
  }

  function NameText(name: Name): seq<byte> {
    if name.NullName? then NULL_TEXT else Quoted(name.text)
  }

  function Text(d: Doc): seq<byte>
    decreases d, 3
  {
    match d
    case DNull => NULL_TEXT
    case DTrue => TRUE_TEXT
    case DFalse => FALSE_TEXT
    case DNumber(text) => text
    case DString(body) => Quoted(body)
    case DEmptyArray(space) => [OPEN_BRACKET] + (space + [CLOSE_BRACKET])
    case DArray(items) => [OPEN_BRACKET] + ItemsText(items)
    case DEmptyObject(space) => [OPEN_BRACE] + (space + [CLOSE_BRACE])
    case DObject(members) => [OPEN_BRACE] + MembersText(members)
  }

  /** The elements and the closing bracket. */
  function ItemsText(items: Items): seq<byte>
    decreases items, 2
  {
    match items
    case LastItem(before, value, after) => before + (Text(value) + (after + [CLOSE_BRACKET]))
    case Item(before, value, after, rest) => before + (Text(value) + (after + ([COMMA] + ItemsText(rest))))
  }

  /** The members and the closing brace. */
  function MembersText(members: Members): seq<byte>
    decreases members, 2
  {
    members.before + (NameText(members.name) + AfterName(members))
  }

  /** A list of members from the end of its first name on. */
  function AfterName(members: Members): seq<byte>
    decreases members, 1
  {
    members.colon + ([COLON] + (members.middle + (Text(members.value) + (members.after + AfterMember(members)))))
  }

  function AfterMember(members: Members): seq<byte>
    decreases members, 0
  {
    match members
    case LastMember(_, _, _, _, _, _) => [CLOSE_BRACE]
    case Member(_, _, _, _, _, _, rest) => [COMMA] + MembersText(rest)
  }

  // ---------- Well-formed documents ----------

  predicate IsSpace(w: seq<byte>) {
    forall k :: 0 <= k < |w| ==> IsWhitespace(w[k])
  }

  /** The text between the quotes of a valid string. */
  predicate IsStringBody(body: seq<byte>) {
    RawEnd(body + [QUOTE], 0) == Some(|body| + 1)
  }

  /** Section 6 of RFC 8259. */
  predicate IsNumberText(text: seq<byte>) {
    RfcNumber(text, 0) == Some(|text|)
  }

  predicate WellFormed(d: Doc) {
    match d
    case DNull => true
    case DTrue => true
    case DFalse => true
    case DNumber(text) => IsNumberText(text)
    case DString(body) => IsStringBody(body)
    case DEmptyArray(space) => IsSpace(space)
    case DArray(items) => WellFormedItems(items)
    case DEmptyObject(space) => IsSpace(space)
    case DObject(members) => WellFormedMembers(members)
  }

  predicate WellFormedItems(items: Items) {
    && IsSpace(items.before) && WellFormed(items.value) && IsSpace(items.after)
    && (items.Item? ==> WellFormedItems(items.rest))
  }

  predicate WellFormedMembers(members: Members) {
    && IsSpace(members.before) && members.name.Body? && IsStringBody(members.name.text) && IsSpace(members.colon)
    && IsSpace(members.middle) && WellFormed(members.value) && IsSpace(members.after)
    && (members.Member? ==> WellFormedMembers(members.rest))
  }

  // ---------- Shaped documents ----------

  /** A run of number characters behind a digit or a minus sign, as `readNumberAsBytes` collects it. */
  predicate IsNumberRun(text: seq<byte>) {
    && text != [] && (0x30 <= text[0] <= 0x39 || text[0] == 0x2D)
    && forall k :: 0 <= k < |text| ==>
         || 0x30 <= text[k] <= 0x39 || text[k] == 0x2B || text[k] == 0x2D || text[k] == 0x2E
         || text[k] == 0x45 || text[k] == 0x65
  }

  predicate IsName(name: Name) {
    name.Body? ==> IsStringBody(name.text)
  }

  /** The grammar with two liberties: any run of number characters for a number, and null for a name behind a comma. */
  predicate IsShaped(d: Doc) {
    match d
    case DNull => true
    case DTrue => true
    case DFalse => true
    case DNumber(text) => IsNumberRun(text)
    case DString(body) => IsStringBody(body)
    case DEmptyArray(space) => IsSpace(space)
    case DArray(items) => AreShapedItems(items)
    case DEmptyObject(space) => IsSpace(space)
    case DObject(members) => members.name.Body? && AreShapedMembers(members)
  }

  predicate AreShapedItems(items: Items) {
    && IsSpace(items.before) && IsShaped(items.value) && IsSpace(items.after)
    && (items.Item? ==> AreShapedItems(items.rest))
  }

  predicate AreShapedMembers(members: Members) {
    && IsSpace(members.before) && IsName(members.name) && IsSpace(members.colon)
    && IsSpace(members.middle) && IsShaped(members.value) && IsSpace(members.after)
    && (members.Member? ==> AreShapedMembers(members.rest))
  }

  /** Neither liberty is taken. */
  predicate IsStrict(d: Doc) {
    match d
    case DNumber(text) => IsNumberText(text)
    case DArray(items) => AreStrictItems(items)
    case DObject(members) => AreStrictMembers(members)
    case _ => true
  }

  predicate AreStrictItems(items: Items) {
    IsStrict(items.value) && (items.Item? ==> AreStrictItems(items.rest))
  }

  predicate AreStrictMembers(members: Members) {
    members.name.Body? && IsStrict(members.value) && (members.Member? ==> AreStrictMembers(members.rest))
  }

  function Max(a: nat, b: nat): nat {
    if a < b then b else a
  }

  /** How deeply containers are nested. */
  function Nesting(d: Doc): nat {
    match d
    case DEmptyArray(_) => 1
    case DEmptyObject(_) => 1
    case DArray(items) => 1 + ItemsNesting(items)
    case DObject(members) => 1 + MembersNesting(members)
    case _ => 0
  }

  function ItemsNesting(items: Items): nat {
    match items
    case LastItem(_, value, _) => Nesting(value)
    case Item(_, value, _, rest) => Max(Nesting(value), ItemsNesting(rest))
  }

  function MembersNesting(members: Members): nat {
    match members
    case LastMember(_, _, _, _, value, _) => Nesting(value)
    case Member(_, _, _, _, value, _, rest) => Max(Nesting(value), MembersNesting(rest))
  }

  // ---------- Values ----------

  /** The string a body stands for. */
  function StringOf(body: seq<byte>): seq<byte> {
    var d := Decode(body + [QUOTE], 0);
    if d.Ok? then d.value else []
  }

  function NameOf(name: Name): seq<byte> {
    if name.NullName? then [] else StringOf(name.text)
  }

  /** What `Read` makes of a document; a skipped value is `Nothing`. */
  function ValueOf(d: Doc, m: Mode): Value {
    match d
    case DNull => Seen(Null, m)
    case DTrue => Seen(Bool(true), m)
    case DFalse => Seen(Bool(false), m)
    case DNumber(text) => Seen(Number(text), m)
    case DString(body) => Seen(Str(StringOf(body)), m)
    case DEmptyArray(_) => Seen(Arr([]), m)
    case DArray(items) => Seen(Arr(ItemValues(items, m)), m)
    case DEmptyObject(_) => Seen(Obj(map[]), m)
    case DObject(members) => Seen(Obj(FieldMap(FieldsOf(members, m))), m)
  }

  function ItemValues(items: Items, m: Mode): seq<Value> {
    match items
    case LastItem(_, value, _) => [ValueOf(value, m)]
    case Item(_, value, _, rest) => [ValueOf(value, m)] + ItemValues(rest, m)
  }

  function FieldsOf(members: Members, m: Mode): seq<Field> {
    match members
    case LastMember(_, name, _, _, value, _) => [(NameOf(name), ValueOf(value, m))]
    case Member(_, name, _, _, value, _, rest) => [(NameOf(name), ValueOf(value, m))] + FieldsOf(rest, m)
  }

  // ---------- Numbers that are taken ----------

  /** The byte at a position, if there is one. */
  function ByteAt(s: seq<byte>, i: nat): Option<byte> {
    if i < |s| then Some(s[i]) else None
  }

  /** The byte behind an element or a member. */
  function ItemNext(items: Items): byte {
    if items.after != [] then items.after[0] else if items.Item? then COMMA else CLOSE_BRACKET
  }

  function MemberNext(members: Members): byte {
    if members.after != [] then members.after[0] else if members.Member? then COMMA else CLOSE_BRACE
  }

  /** How much of its buffer is left at `j`, for a number of `n` characters; where no chunk ends, enough. */
  function RoomAt(m: Mode, j: nat, n: nat): nat {
    var end := ChunkEnd(0, m.chunks, j);
    if j < end then end - j else n + 1
  }

  /**
   * A number at `j`, in front of the byte `next`, that is taken: by reading, any run; by skipping, exactly what
   * `TakenBySkip` says of the run, that byte and the part of the number that is in one buffer.
   */
  predicate IsTakenNumber(text: seq<byte>, j: nat, next: Option<byte>, m: Mode) {
    && IsNumberRun(text) && next.Some? && !IsNumberChar(next.value)
    && (m.visitor.Skipping? ==> TakenBySkip(text, next.value, RoomAt(m, j, |text|), m.parsers))
  }

  /** Every number is taken; the document stands at `j`, and `next` is the byte behind it. */
  predicate NumbersTaken(d: Doc, j: nat, next: Option<byte>, m: Mode) {
    match d
    case DNumber(text) => IsTakenNumber(text, j, next, m)
    case DArray(items) => ItemNumbersTaken(items, j + 1, m)
    case DObject(members) => MemberNumbersTaken(members, FirstNameEnd(members, j + 1), m)
    case _ => true
  }

  predicate ItemNumbersTaken(items: Items, i: nat, m: Mode) {
    var j := i + |items.before|;
    && NumbersTaken(items.value, j, Some(ItemNext(items)), m)
    && (items.Item? ==> ItemNumbersTaken(items.rest, j + |Text(items.value)| + |items.after| + 1, m))
  }

  /** Where the first name of members that stand at `i` ends. */
  function FirstNameEnd(members: Members, i: nat): nat {
    i + |members.before| + |NameText(members.name)|
  }

  /** The same for members whose first name ends at `n`. */
  predicate MemberNumbersTaken(members: Members, n: nat, m: Mode) {
    var j := n + |members.colon| + 1 + |members.middle|;
    && NumbersTaken(members.value, j, Some(MemberNext(members)), m)
    && (members.Member? ==>
          MemberNumbersTaken(members.rest,
                             FirstNameEnd(members.rest, j + |Text(members.value)| + |members.after| + 1), m))
  }

  predicate IsExponentFree(text: seq<byte>) {
    forall k :: 0 <= k < |text| ==> !IsExponentMark(text[k])
  }

  /**
   * strconv accepts the number; or it is not asked: in a flat buffer that is so for a number without exponent,
   * unless it starts with a zero or is a single digit.
   */
  predicate IsSkippableNumber(text: seq<byte>, m: Mode) {
    || m.visitor.Reading?
    || (m.parsers.accepts64(UnsignedText(text)) && (text != [] && text[0] == ZERO ==> m.parsers.accepts32(text)))
    || (m.chunks == [] && IsExponentFree(text) && |text| > 1 && text[0] != ZERO)
  }

  predicate IsSkippable(d: Doc, m: Mode) {
    match d
    case DNumber(text) => IsSkippableNumber(text, m)
    case DArray(items) => AreSkippableItems(items, m)
    case DObject(members) => AreSkippableMembers(members, m)
    case _ => true
  }

  predicate AreSkippableItems(items: Items, m: Mode) {
    IsSkippable(items.value, m) && (items.Item? ==> AreSkippableItems(items.rest, m))
  }

  predicate AreSkippableMembers(members: Members, m: Mode) {
    IsSkippable(members.value, m) && (members.Member? ==> AreSkippableMembers(members.rest, m))
  }
}

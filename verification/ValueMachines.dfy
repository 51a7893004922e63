/**
 * Values, arrays and objects on a whole text, as `Skip`, `Read`, `ReadArrayCB` and `ReadObjectRawCB` take them:
 * where they end, what they are, and when they fail.
 */
module ValueMachines {
  import opened Bytes
  import opened StringMachines
  import opened FloatMachines
  import opened IterCore
  import opened NumberSkips

  /** The callbacks handed to `ReadArrayCB` and `ReadObjectRawCB`: `Skip`, or `ReadVal` into the result. */
  datatype Visitor = Skipping | Reading

  /** What `Read` returns, numbers kept as text (`UseNumber`); `Nothing` stands for a skipped value. */
  datatype Value =
    | Null
    | Bool(b: bool)
    | Number(text: seq<byte>)
    | Str(bytes: seq<byte>)
    | Arr(items: seq<Value>)
    | Obj(fields: map<seq<byte>, Value>)
    | Nothing

  /** Done at a position, or an error. */
  datatype Scan<+T> = Done(value: T, next: nat) | Fails

  /**
   * The visitor, and what the outcome of skipping a number depends on: how a reader splits the input (nothing for
   * an input that is all in the buffer), and strconv.
   */
  datatype Mode = Mode(visitor: Visitor, chunks: seq<seq<byte>>, parsers: FloatParsers)

  type Field = (seq<byte>, Value)

  /** The map that the callback of `Read` fills: a later field replaces an earlier one of the same name. */
  function FieldMap(fields: seq<Field>): map<seq<byte>, Value> {
    if fields == [] then map[]
    else map[fields[0].0 := fields[0].1] + FieldMap(fields[1..])
  }

  function Seen(v: Value, m: Mode): Value {
    if m.visitor.Reading? then v else Nothing
  }

  function LiteralAt(s: seq<byte>, i: nat, rest: seq<byte>, v: Value, m: Mode): Scan<Value> {
    if At(s, i, rest) then Done(Seen(v, m), i + |rest|) else Fails
  }

  function StringAt(s: seq<byte>, i: nat, m: Mode): (r: Scan<Value>)
    ensures r.Done? ==> i < r.next <= |s|
  {
    if m.visitor.Reading? then
      match Decode(s, i)
      case Ok(v, next) => Done(Str(v), next)
      case Bad => Fails
    else
      match RawEnd(s, i)
      case Some(next) => Done(Nothing, next)
      case None => Fails
  }

  function NumberValueAt(s: seq<byte>, i: nat, m: Mode): (r: Scan<Value>)
    requires i < |s| && StartsNumber(s[i])
    ensures r.Done? ==> i < r.next <= |s|
  {
    if m.visitor.Reading? then
      var e := NumberEnd(s, i);
      if e < |s| then Done(Number(s[i..e]), e) else Fails
    else
      var limit := BufferEnd(s, m.chunks, i);
      SkipNumberTaken(s, i, limit, m.parsers);
      RunIsNotEmpty(s, i);
      match SkipNumberAt(s, i, limit, m.parsers)
      case Stops(e) => Done(Nothing, e)
      case _ => Fails
  }

  /** One value behind whitespace, inside `depth` open containers. */
  function ValueAt(s: seq<byte>, i: nat, depth: int, m: Mode): (r: Scan<Value>)
    requires i <= |s|
    ensures r.Done? ==> i < r.next <= |s|
    decreases |s| - i, 2
  {
    var j := SkipWhitespace(s, i);
    if j == |s| then Fails else ValueFrom(s, j, depth, m)
  }

  /** One value whose first character is at `j`. */
  function ValueFrom(s: seq<byte>, j: nat, depth: int, m: Mode): (r: Scan<Value>)
    requires j < |s|
    ensures r.Done? ==> j < r.next <= |s|
    decreases |s| - j, 1
  {
    var c := s[j];
    if c == QUOTE then StringAt(s, j + 1, m)
    else if c == LOWER_N then LiteralAt(s, j + 1, ULL, Null, m)
    else if c == LOWER_T then LiteralAt(s, j + 1, RUE, Bool(true), m)
    else if c == LOWER_F then LiteralAt(s, j + 1, ALSE, Bool(false), m)
    else if StartsNumber(c) then NumberValueAt(s, j, m)
    else if c == OPEN_BRACKET then
      match ArrayAt(s, j, depth, m)
      case Done(items, next) => Done(Seen(Arr(items), m), next)
      case Fails => Fails
    else if c == OPEN_BRACE then
      match ObjectAt(s, j, depth, m)
      case Done(fields, next) => Done(Seen(Obj(FieldMap(fields)), m), next)
      case Fails => Fails
    else Fails
  }

  /** `ReadArrayCB` behind whitespace: an array, or null. */
  function ArrayAt(s: seq<byte>, i: nat, depth: int, m: Mode): (r: Scan<seq<Value>>)
    requires i <= |s|
    ensures r.Done? ==> i < r.next <= |s|
    decreases |s| - i, 0
  {
    var j := SkipWhitespace(s, i);
    if j == |s| then Fails
    else if s[j] == OPEN_BRACKET then AfterBracket(s, j + 1, depth, m)
    else if s[j] == LOWER_N && At(s, j + 1, ULL) then Done([], j + 4)
    else Fails
  }

  /** An array behind its opening bracket. */
  function AfterBracket(s: seq<byte>, i: nat, depth: int, m: Mode): (r: Scan<seq<Value>>)
    requires i <= |s|
    ensures r.Done? ==> i < r.next <= |s|
    decreases |s| - i, 4
  {
    if depth + 1 > MAX_DEPTH then Fails
    else
      var k := SkipWhitespace(s, i);
      if k == |s| then Fails
      else if s[k] == CLOSE_BRACKET then Done([], k + 1)
      else Elements(s, k, depth + 1, m)
  }

  /** The elements from the one at `i` on, and the closing bracket. */
  function Elements(s: seq<byte>, i: nat, depth: int, m: Mode): (r: Scan<seq<Value>>)
    requires i <= |s|
    ensures r.Done? ==> i < r.next <= |s|
    decreases |s| - i, 3
  {
    match ValueAt(s, i, depth, m)
    case Fails => Fails
    case Done(v, next) =>
      var k := SkipWhitespace(s, next);
      if k == |s| then Fails
      else if s[k] == COMMA then
        (match Elements(s, k + 1, depth, m)
         case Done(rest, end) => Done([v] + rest, end)
         case Fails => Fails)
      else if s[k] == CLOSE_BRACKET then Done([v], k + 1)
      else Fails
  }

  /** `ReadObjectRawCB` behind whitespace: an object, or null. */
  function ObjectAt(s: seq<byte>, i: nat, depth: int, m: Mode): (r: Scan<seq<Field>>)
    requires i <= |s|
    ensures r.Done? ==> i < r.next <= |s|
    decreases |s| - i, 0
  {
    var j := SkipWhitespace(s, i);
    if j == |s| then Fails
    else if s[j] == OPEN_BRACE then AfterBrace(s, j + 1, depth, m)
    else if s[j] == LOWER_N && At(s, j + 1, ULL) then Done([], j + 4)
    else Fails
  }

  /** An object behind its opening brace; its first name must be a string. */
  function AfterBrace(s: seq<byte>, i: nat, depth: int, m: Mode): (r: Scan<seq<Field>>)
    requires i <= |s|
    ensures r.Done? ==> i < r.next <= |s|
    decreases |s| - i, 4
  {
    if depth + 1 > MAX_DEPTH then Fails
    else
      var k := SkipWhitespace(s, i);
      if k == |s| then Fails
      else if s[k] == CLOSE_BRACE then Done([], k + 1)
      else if s[k] == QUOTE then
        match Decode(s, k + 1)
        case Ok(key, next) => Members(s, next, key, depth + 1, m)
        case Bad => Fails
      else Fails
  }

  /** The fields from the one named `key` on, whose name ends at `i`, and the closing brace. */
  function Members(s: seq<byte>, i: nat, key: seq<byte>, depth: int, m: Mode): (r: Scan<seq<Field>>)
    requires i <= |s|
    ensures r.Done? ==> i < r.next <= |s|
    decreases |s| - i, 3
  {
    var t := SkipWhitespace(s, i);
    if t == |s| || s[t] != COLON then Fails
    else
      match ValueAt(s, t + 1, depth, m)
      case Fails => Fails
      case Done(v, next) =>
        var k := SkipWhitespace(s, next);
        if k == |s| then Fails
        else if s[k] == COMMA then
          (match MembersAfterComma(s, k + 1, depth, m)
           case Done(rest, last) => Done([(key, v)] + rest, last)
           case Fails => Fails)
        else if s[k] == CLOSE_BRACE then Done([(key, v)], k + 1)
        else Fails
  }

  /** The fields behind a comma. */
  function MembersAfterComma(s: seq<byte>, i: nat, depth: int, m: Mode): (r: Scan<seq<Field>>)
    requires i <= |s|
    ensures r.Done? ==> i < r.next <= |s|
    decreases |s| - i, 4
  {
    match KeyAt(s, i)
    case Bad => Fails
    case Ok(key, end) => Members(s, end, key, depth, m)
  }

  /** A name behind a comma, which `ReadRawString` reads: a string, or null for the empty name. */
  function KeyAt(s: seq<byte>, i: nat): (r: Outcome<seq<byte>>)
    requires i <= |s|
    ensures r.Ok? ==> i < r.next <= |s|
  {
    match RawTokenAt(s, i)
    case RawText(from, to) =>
      RawTokenDecodes(s, i);
      Ok(Decode(s, from).value, to)
    case RawNull(to) => Ok([], to)
    case RawError => Bad
  }

  lemma RawTokenDecodes(s: seq<byte>, i: nat)
    requires i <= |s| && RawTokenAt(s, i).RawText?
    ensures var t := RawTokenAt(s, i); Decode(s, t.from).Ok? && Decode(s, t.from).next == t.to
  {
    var t := RawTokenAt(s, i);
    RawEndIffDecode(s, t.from);
  }
}

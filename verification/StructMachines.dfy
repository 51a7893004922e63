/** reflect_struct_decoder.go on a whole text: a struct is a map from field slots to values. */
module StructMachines {
  import opened Bytes
  import opened StringMachines
  import opened FloatMachines
  import opened IterCore
  import opened ValueMachines
  import opened LookupMachines
  import opened FieldHash
  import opened Containers

  /**
   * What `createStructDecoder` makes: the general decoder with its map of names; the decoder for no fields; or
   * one of the decoders for one to ten fields, a table of hashes.
   */
  datatype Decoder =
    | General(fields: map<seq<byte>, nat>)
    | SkipObject
    | Table(entries: seq<(bv64, nat)>)

  // ---------- Which field a name selects ----------

  /** The lookup of the general decoder: the name itself, then its lower-case form. */
  function FindName(fields: map<seq<byte>, nat>, name: seq<byte>, cfg: FieldConfig): Option<nat> {
    if name in fields then Some(fields[name])
    else if !cfg.caseSensitive && cfg.toLower(name) in fields then Some(fields[cfg.toLower(name)])
    else None
  }

  /** The `switch` of the other decoders. */
  function FindHash(entries: seq<(bv64, nat)>, hash: bv64): Option<nat> {
    if entries == [] then None
    else if entries[0].0 == hash then Some(entries[0].1)
    else FindHash(entries[1..], hash)
  }

  /** A name read with its colon, and the field it selects, if any. */
  datatype FieldKey = KeyOf(slot: Option<nat>, next: nat) | BadKey

  /** How the general decoder reads a name; names that must be simple are not decoded. */
  function NameAt(s: seq<byte>, i: nat, cfg: FieldConfig): (r: Outcome<seq<byte>>)
    requires i <= |s|
    ensures r.Ok? ==> i < r.next <= |s|
  {
    if cfg.simpleNames then
      match RawTokenAt(s, i)
      case RawText(from, to) => Ok(s[from..to - 1], to)
      case RawNull(to) => Ok([], to)
      case RawError => Bad
    else StringToken(s, i)
  }

  function GeneralKeyAt(s: seq<byte>, i: nat, fields: map<seq<byte>, nat>, cfg: FieldConfig): (r: FieldKey)
    requires i <= |s|
    ensures r.KeyOf? ==> i < r.next <= |s|
  {
    match NameAt(s, i, cfg)
    case Bad => BadKey
    case Ok(name, next) =>
      var slot := FindName(fields, name, cfg);
      if slot.None? && cfg.disallowUnknown then BadKey
      else match ColonAt(s, next, name) case Found(_, e) => KeyOf(slot, e) case _ => BadKey
  }

  function TableKeyAt(s: seq<byte>, i: nat, entries: seq<(bv64, nat)>, cfg: FieldConfig): (r: FieldKey)
    requires i <= |s|
    ensures r.KeyOf? ==> i < r.next <= |s|
  {
    match FieldHashAt(s, i, cfg.caseSensitive)
    case Hashed(hash, next) => KeyOf(FindHash(entries, hash), next)
    case NoHash => BadKey
  }

  function KeyIn(s: seq<byte>, i: nat, d: Decoder, cfg: FieldConfig): (r: FieldKey)
    requires i <= |s| && !d.SkipObject?
    ensures r.KeyOf? ==> i < r.next <= |s|
  {
    if d.General? then GeneralKeyAt(s, i, d.fields, cfg) else TableKeyAt(s, i, d.entries, cfg)
  }

  // ---------- Decoding ----------

  /** A value put into a field. */
  type Assignment = (nat, Value)

  function Assigned(slots: map<nat, Value>, done: seq<Assignment>): map<nat, Value> {
    if done == [] then slots
    else
      var last := done[|done| - 1];
      Assigned(slots, done[..|done| - 1])[last.0 := last.1]
  }

  function Assign(slot: Option<nat>, value: Value): seq<Assignment> {
    if slot.Some? then [(slot.value, value)] else []
  }

  /** A known field is read, another one skipped. */
  function VisitorOf(slot: Option<nat>): Visitor {
    if slot.Some? then Reading else Skipping
  }

  function FieldMode(slot: Option<nat>, m: Mode): Mode {
    m.(visitor := VisitorOf(slot))
  }

  /** The decoding loop: the assignments it makes, in order. */
  function StructFields(s: seq<byte>, i: nat, d: Decoder, cfg: FieldConfig, depth: int, m: Mode)
    : (r: Scan<seq<Assignment>>)
    requires i <= |s| && !d.SkipObject?
    ensures r.Done? ==> i < r.next <= |s|
    decreases |s| - i
  {
    match KeyIn(s, i, d, cfg)
    case BadKey => Fails
    case KeyOf(slot, next) =>
      match ValueAt(s, next, depth, FieldMode(slot, m))
      case Fails => Fails
      case Done(v, e) =>
        var k := SkipWhitespace(s, e);
        if k == |s| then Fails
        else if s[k] == COMMA then
          (match StructFields(s, k + 1, d, cfg, depth, m)
           case Done(rest, last) => Done(Assign(slot, v) + rest, last)
           case Fails => Fails)
        else if s[k] == CLOSE_BRACE then Done(Assign(slot, v), k + 1)
        else Fails
  }

  /** The loop behind a name, as far as the first value decides. */
  function AfterValue(s: seq<byte>, slot: Option<nat>, first: Scan<Value>, d: Decoder, cfg: FieldConfig, depth: int,
                      m: Mode): Scan<seq<Assignment>>
    requires !d.SkipObject? && (first.Done? ==> first.next <= |s|)
  {
    match first
    case Fails => Fails
    case Done(v, e) =>
      var k := SkipWhitespace(s, e);
      if k == |s| then Fails
      else if s[k] == COMMA then PrependItems(Assign(slot, v), StructFields(s, k + 1, d, cfg, depth, m))
      else if s[k] == CLOSE_BRACE then Done(Assign(slot, v), k + 1)
      else Fails
  }

  lemma StructFieldsUnfold(s: seq<byte>, i: nat, d: Decoder, cfg: FieldConfig, depth: int, m: Mode)
    requires i <= |s| && !d.SkipObject? && KeyIn(s, i, d, cfg).KeyOf?
    ensures var k := KeyIn(s, i, d, cfg);
      StructFields(s, i, d, cfg, depth, m) ==
      AfterValue(s, k.slot, ValueAt(s, k.next, depth, FieldMode(k.slot, m)), d, cfg, depth, m)
  {
    hide ValueAt, KeyIn, Assign;
  }

  /** `readObjectStart`: an object with a first field at a position, nothing to decode, or an error. */
  datatype ObjectStart = Opens(next: nat) | NoFields(next: nat) | NoObject

  function StartAt(s: seq<byte>, i: nat): (r: ObjectStart)
    requires i <= |s|
    ensures r.Opens? ==> i < r.next <= |s|
  {
    var j := SkipWhitespace(s, i);
    if j == |s| then NoObject
    else if s[j] == OPEN_BRACE then
      var k := SkipWhitespace(s, j + 1);
      if k == |s| then NoObject else if s[k] == CLOSE_BRACE then NoFields(k + 1) else Opens(k)
    else if s[j] == LOWER_N && At(s, j + 1, ULL) then NoFields(j + 4)
    else NoObject
  }

  /** A struct in front of position `i`. */
  function StructAt(s: seq<byte>, i: nat, d: Decoder, cfg: FieldConfig, depth: int, m: Mode): Scan<seq<Assignment>>
    requires i <= |s|
  {
    if d.SkipObject? then
      var j := SkipWhitespace(s, i);
      if j == |s| || (s[j] != OPEN_BRACE && s[j] != LOWER_N) then Fails
      else match ValueAt(s, j, depth, m.(visitor := Skipping))
           case Done(_, e) => Done([], e)
           case Fails => Fails
    else
      match StartAt(s, i)
      case NoObject => Fails
      case NoFields(next) => Done([], next)
      case Opens(k) => if depth + 1 > MAX_DEPTH then Fails else StructFields(s, k, d, cfg, depth + 1, m)
  }
}

/** reflect_struct_decoder.go: which decoder a struct gets, and the decoding loops. */
module StructDecoder {
  import opened Bytes
  import opened StringMachines
  import opened IterCore
  import opened Literals
  import opened IterStr
  import opened ValueMachines
  import opened LookupMachines
  import opened PullReaders
  import opened FieldHash
  import opened StructMachines
  import opened Containers

  // ---------- createStructDecoder ----------

  /** The names of the fields in the order in which `range` gives them. */
  predicate IsOrder(order: seq<seq<byte>>, fields: map<seq<byte>, nat>) {
    && (forall i, j :: 0 <= i < j < |order| ==> order[i] != order[j])
    && (forall i :: 0 <= i < |order| ==> order[i] in fields)
    && (forall name :: name in fields ==> name in order)
  }

  /** Among the first `n` names no hash is zero and no two are equal. */
  predicate AreUsable(order: seq<seq<byte>>, n: nat, cfg: FieldConfig)
    requires n <= |order|
  {
    && (forall i :: 0 <= i < n ==> CalcHashOf(order[i], cfg) != 0)
    && (forall i, j :: 0 <= i < j < n ==> CalcHashOf(order[i], cfg) != CalcHashOf(order[j], cfg))
  }

  /** The first `n` entries pair the hashes of names with their fields. */
  predicate IsTable(
      entries: seq<(bv64, nat)>, n: nat, order: seq<seq<byte>>, fields: map<seq<byte>, nat>, cfg: FieldConfig)
    requires n <= |order|
    requires forall i :: 0 <= i < |order| ==> order[i] in fields
  {
    && |entries| == |order|
    && forall i :: 0 <= i < n ==> entries[i] == (CalcHashOf(order[i], cfg), fields[order[i]])
  }

  const MAX_TABLE := 10

  /**
   * `createStructDecoder`: a table for one to ten fields exactly when every hash can be used; it pairs the hash
   * of each name with its field.
   */
  method CreateStructDecoder(fields: map<seq<byte>, nat>, order: seq<seq<byte>>, cfg: FieldConfig)
    returns (d: Decoder)
    requires IsOrder(order, fields)
    ensures d.SkipObject? <==> !cfg.disallowUnknown && order == []
    ensures d.Table? <==> !cfg.disallowUnknown && 1 <= |order| <= 10 && AreUsable(order, |order|, cfg)
    ensures d.Table? ==> IsTable(d.entries, |order|, order, fields, cfg)
    ensures d.General? ==> d.fields == fields
  {
    hide AreUsable, IsTable, KnownHashes;
    if cfg.disallowUnknown {
      return General(fields);
    }
    if |order| == 0 {
      return SkipObject;
    }
    if |order| > MAX_TABLE {
      return General(fields);
    }
    d := CreateTable(fields, order, cfg);
  }

  /** One case of the `switch` over the number of fields. */
  method CreateTable(fields: map<seq<byte>, nat>, order: seq<seq<byte>>, cfg: FieldConfig) returns (d: Decoder)
    requires IsOrder(order, fields)
    ensures d == General(fields) || d.Table?
    ensures d.Table? <==> AreUsable(order, |order|, cfg)
    ensures d.Table? ==> IsTable(d.entries, |order|, order, fields, cfg)
  {
    hide CalcHashOf, AreUsable, IsTable, KnownHashes;
    var knownHash: set<bv64> := {0};
    // the variables fieldHash1, fieldDecoder1, ... of this case, all zero at first
    var n := |order|;
    var table: seq<(bv64, nat)> := seq(n, _ => (0, 0));
    NothingKnown(table, order, fields, cfg);
    var i := 0;
    while i < n
      invariant 0 <= i <= n && |table| == n
      invariant AreUsable(order, i, cfg) && IsTable(table, i, order, fields, cfg)
      invariant knownHash == KnownHashes(order, i, cfg)
      invariant forall k :: i <= k < n ==> table[k].0 == 0
    {
      var fieldHash := CalcHash(order[i], cfg);
      OneMoreKnown(order, i, cfg);
      if fieldHash in knownHash {
        return General(fields);
      }
      knownHash := knownHash + {fieldHash};
      TableIsUsable(table, order, i, fields, cfg);
      var free := FirstFree(table, i);
      OneMoreEntry(table, order, i, fields, cfg);
      table := table[free := (fieldHash, fields[order[i]])];
      i := i + 1;
    }
    return Table(table);
  }

  /** Zero and the hashes of the first `n` names. */
  function KnownHashes(order: seq<seq<byte>>, n: nat, cfg: FieldConfig): set<bv64>
    requires n <= |order|
  {
    if n == 0 then {0} else KnownHashes(order, n - 1, cfg) + {CalcHashOf(order[n - 1], cfg)}
  }

  lemma {:induction false} IsKnown(order: seq<seq<byte>>, n: nat, cfg: FieldConfig, h: bv64)
    requires n <= |order|
    ensures h in KnownHashes(order, n, cfg) <==> h == 0 || exists k :: 0 <= k < n && CalcHashOf(order[k], cfg) == h
  {
    hide CalcHashOf;
    if n > 0 {
      IsKnown(order, n - 1, cfg, h);
      if CalcHashOf(order[n - 1], cfg) != h {
        assert forall k :: 0 <= k < n && CalcHashOf(order[k], cfg) == h ==> k < n - 1;
      }
    }
  }

  /** A hash that is known spoils the table; another one keeps it usable. */
  lemma OneMoreKnown(order: seq<seq<byte>>, i: nat, cfg: FieldConfig)
    requires i < |order| && AreUsable(order, i, cfg)
    ensures KnownHashes(order, i + 1, cfg) == KnownHashes(order, i, cfg) + {CalcHashOf(order[i], cfg)}
    ensures CalcHashOf(order[i], cfg) in KnownHashes(order, i, cfg) ==> !AreUsable(order, |order|, cfg)
    ensures CalcHashOf(order[i], cfg) !in KnownHashes(order, i, cfg) ==> AreUsable(order, i + 1, cfg)
  {
    hide CalcHashOf;
    IsKnown(order, i, cfg, CalcHashOf(order[i], cfg));
  }

  lemma NothingKnown(table: seq<(bv64, nat)>, order: seq<seq<byte>>, fields: map<seq<byte>, nat>, cfg: FieldConfig)
    requires IsOrder(order, fields) && |table| == |order|
    ensures AreUsable(order, 0, cfg) && IsTable(table, 0, order, fields, cfg) && KnownHashes(order, 0, cfg) == {0}
  {
  }

  lemma TableIsUsable(
      table: seq<(bv64, nat)>, order: seq<seq<byte>>, i: nat, fields: map<seq<byte>, nat>, cfg: FieldConfig)
    requires IsOrder(order, fields) && i <= |order| && IsTable(table, i, order, fields, cfg) && AreUsable(order, i, cfg)
    ensures forall k :: 0 <= k < i ==> table[k].0 != 0
  {
    hide CalcHashOf;
  }

  lemma OneMoreEntry(
      table: seq<(bv64, nat)>, order: seq<seq<byte>>, i: nat, fields: map<seq<byte>, nat>, cfg: FieldConfig)
    requires IsOrder(order, fields) && i < |order| && IsTable(table, i, order, fields, cfg)
    ensures IsTable(table[i := (CalcHashOf(order[i], cfg), fields[order[i]])], i + 1, order, fields, cfg)
  {
    hide CalcHashOf;
  }

  /** The chain of `if fieldHash1 == 0 … else if fieldHash2 == 0 … else`: the last variable needs no test. */
  method FirstFree(table: seq<(bv64, nat)>, i: nat) returns (free: nat)
    requires i < |table|
    requires forall k :: 0 <= k < i ==> table[k].0 != 0
    requires forall k :: i <= k < |table| ==> table[k].0 == 0
    ensures free == i
  {
    free := 0;
    while free < |table| - 1 && table[free].0 != 0
      invariant 0 <= free <= i
    {
      free := free + 1;
    }
  }

  // ---------- Names ----------

  /** What reading a name left behind. */
  ghost predicate KeyRead(iter: Iterator, k: FieldKey, slot: Option<nat>)
    reads iter
  {
    match k
    case KeyOf(f, next) => slot == f && iter.Pos() == next && iter.err == NoError
    case BadKey => iter.err == Other
  }

  /** The name in `decodeOneField`. */
  method ReadName(iter: Iterator, cfg: FieldConfig) returns (field: seq<byte>)
    requires iter.Valid()
    modifies iter, iter.buf
    ensures iter.Kept()
    ensures SkipWhitespace(iter.input, old(iter.Pos())) == |iter.input| ==> iter.err == Other
    ensures old(iter.err) == NoError ==>
              match NameAt(iter.input, old(iter.Pos()), cfg)
              case Ok(name, next) => field == name && iter.Pos() == next && iter.err == NoError
              case Bad => iter.err == Other
  {
    hide iter.BufferValid, iter.ReaderValid, iter.CapturedTo, RawTokenAt, StringToken, RawEnd;
    if cfg.simpleNames {
      ghost var p := iter.Pos();
      var raw := ReadRawString(iter);
      if old(iter.err) == NoError && RawTokenAt(iter.input, p).RawText? {
        HeldInBounds(raw, iter, RawTokenAt(iter.input, p).from, iter.Pos());
      }
      var isRaw;
      field, isRaw := raw.Bytes();
    } else {
      field := ReadString(iter);
    }
  }

  lemma HeldInBounds(rs: RawString, iter: Iterator, p: nat, end: nat)
    requires Holds(rs, iter, p, end)
    ensures p <= end <= |iter.input| && rs.InBounds() && !rs.NilString? && rs.Content() == iter.input[p..end]
    ensures end > p ==> rs.Content()[..|rs.Content()| - 1] == iter.input[p..end - 1]
  {
  }

  /** The name and the colon in `decodeOneField`, with the field the name selects. */
  method ReadGeneralKey(iter: Iterator, fields: map<seq<byte>, nat>, cfg: FieldConfig) returns (slot: Option<nat>)
    requires iter.Valid()
    modifies iter, iter.buf
    ensures iter.Kept()
    ensures SkipWhitespace(iter.input, old(iter.Pos())) == |iter.input| ==> iter.err == Other
    ensures old(iter.err) == NoError ==> KeyRead(iter, GeneralKeyAt(iter.input, old(iter.Pos()), fields, cfg), slot)
  {
    hide iter.BufferValid, iter.ReaderValid, iter.CapturedTo, NameAt;
    var field := ReadName(iter, cfg);
    slot := if field in fields then Some(fields[field]) else None;
    if slot.None? && !cfg.caseSensitive {
      var lower := cfg.toLower(field);
      slot := if lower in fields then Some(fields[lower]) else None;
    }
    if slot.None? {
      if cfg.disallowUnknown {
        iter.ReportError();
      }
    }
    ReadColonToken(iter);
  }

  /** The token in `decodeOneField` that must be a colon. */
  method ReadColonToken(iter: Iterator)
    requires iter.Valid()
    modifies iter, iter.buf
    ensures iter.Kept()
    ensures old(iter.err) == NoError ==>
              match ColonAt(iter.input, old(iter.Pos()), [])
              case Found(_, next) => iter.Pos() == next && iter.err == NoError
              case _ => iter.err == Other
  {
    hide iter.BufferValid, iter.ReaderValid, iter.CapturedTo;
    var c := iter.NextToken();
    if c != COLON {
      iter.ReportError();
    }
  }

  /** The name and the colon in the other decoders. */
  method ReadTableKey(iter: Iterator, entries: seq<(bv64, nat)>, cfg: FieldConfig) returns (slot: Option<nat>)
    requires iter.Valid()
    modifies iter, iter.buf
    ensures iter.Kept()
    ensures SkipWhitespace(iter.input, old(iter.Pos())) == |iter.input| ==> iter.err == Other
    ensures old(iter.err) == NoError ==> KeyRead(iter, TableKeyAt(iter.input, old(iter.Pos()), entries, cfg), slot)
  {
    hide iter.BufferValid, iter.ReaderValid, iter.CapturedTo, FieldHashAt;
    var hash := ReadFieldHash(iter, cfg.caseSensitive);
    slot := FindHash(entries, hash);
  }

  method ReadKey(iter: Iterator, d: Decoder, cfg: FieldConfig) returns (slot: Option<nat>)
    requires iter.Valid() && !d.SkipObject?
    modifies iter, iter.buf
    ensures iter.Kept()
    ensures SkipWhitespace(iter.input, old(iter.Pos())) == |iter.input| ==> iter.err == Other
    ensures old(iter.err) == NoError ==> KeyRead(iter, KeyIn(iter.input, old(iter.Pos()), d, cfg), slot)
  {
    hide iter.BufferValid, iter.ReaderValid, iter.CapturedTo, GeneralKeyAt, TableKeyAt;
    if d.General? {
      slot := ReadGeneralKey(iter, d.fields, cfg);
    } else {
      slot := ReadTableKey(iter, d.entries, cfg);
    }
  }

  // ---------- The decoding loop ----------

  /** Where the loop stands: `r` is the outcome of all fields, `c` the token just read. */
  ghost predicate FieldsLoop(iter: Iterator, r: Scan<seq<Assignment>>, done: seq<Assignment>, c: byte, depth: int,
                             intact: bool, d: Decoder, cfg: FieldConfig)
    requires !d.SkipObject?
    reads iter
  {
    || (r.Fails? && (iter.err == Other || (c != COMMA && c != CLOSE_BRACE)))
    || (&& iter.err == NoError && iter.depth == depth && iter.captureIntact == intact
        && 0 <= iter.Pos() <= |iter.input|
        && if c == COMMA
           then r == PrependItems(done, StructFields(iter.input, iter.Pos(), d, cfg, depth, ModeOf(iter, Reading)))
           else c == CLOSE_BRACE && r == Done(done, iter.Pos()))
  }

  /** One more field: its name began at `p` and its value at `next`. */
  lemma FieldsLoopStep(iter: Iterator, p: nat, slot: Option<nat>, next: nat, done: seq<Assignment>, value: Value,
                       c: byte, depth: int, intact: bool, d: Decoder, cfg: FieldConfig)
    requires !d.SkipObject? && p <= |iter.input| && next <= |iter.input| && 0 <= iter.Pos() <= |iter.input|
    requires KeyIn(iter.input, p, d, cfg) == KeyOf(slot, next)
    requires TokenBehind(iter, ValueAt(iter.input, next, depth, ModeOf(iter, VisitorOf(slot))), value, c, depth, intact)
    ensures FieldsLoop(iter, PrependItems(done, StructFields(iter.input, p, d, cfg, depth, ModeOf(iter, Reading))),
                       done + Assign(slot, value), c, depth, intact, d, cfg)
  {
    hide ValueAt, KeyIn, Assign, StructFields;
    var m := ModeOf(iter, Reading);
    assert FieldMode(slot, m) == ModeOf(iter, VisitorOf(slot));
    StructFieldsUnfold(iter.input, p, d, cfg, depth, m);
    var first := ValueAt(iter.input, next, depth, FieldMode(slot, m));
    if first.Done? {
      var k := SkipWhitespace(iter.input, first.next);
      if k < |iter.input| && c == COMMA {
        PrependTwice(done, Assign(slot, value), StructFields(iter.input, k + 1, d, cfg, depth, m));
      }
    }
  }

  lemma PrependTwice<T>(a: seq<T>, b: seq<T>, r: Scan<seq<T>>)
    ensures PrependItems(a, PrependItems(b, r)) == PrependItems(a + b, r)
  {
    if r.Done? {
      assert a + (b + r.value) == a + b + r.value;
    }
  }

  lemma BadKeyFails(s: seq<byte>, p: nat, done: seq<Assignment>, d: Decoder, cfg: FieldConfig, depth: int, m: Mode)
    requires !d.SkipObject? && p <= |s| && KeyIn(s, p, d, cfg).BadKey?
    ensures PrependItems(done, StructFields(s, p, d, cfg, depth, m)) == Fails
  {
  }

  lemma LoopFailed(iter: Iterator, r: Scan<seq<Assignment>>, done: seq<Assignment>, c: byte, depth: int, intact: bool,
                   d: Decoder, cfg: FieldConfig)
    requires !d.SkipObject? && r.Fails? && iter.err == Other
    ensures FieldsLoop(iter, r, done, c, depth, intact, d, cfg)
  {
  }

  lemma AssignedMore(slots: map<nat, Value>, done: seq<Assignment>, slot: Option<nat>, value: Value)
    ensures Assigned(slots, done + Assign(slot, value)) ==
            if slot.Some? then Assigned(slots, done)[slot.value := value] else Assigned(slots, done)
  {
    if slot.Some? {
      assert (done + Assign(slot, value))[..|done|] == done;
    } else {
      assert done + Assign(slot, value) == done;
    }
  }

  /** The value of a field, read into it or skipped, and the token behind it. */
  method DecodeValue(iter: Iterator, slot: Option<nat>, slots: map<nat, Value>)
    returns (slots': map<nat, Value>, ghost value: Value, c: byte)
    requires iter.Valid() && iter.depth >= 0
    modifies iter, iter.buf
    ensures iter.Advanced() && iter.depth >= old(iter.depth)
    ensures iter.err == NoError ==> iter.CanUnread() && iter.Pos() > old(iter.Pos())
    ensures c != 0 ==> iter.Pos() > old(iter.Pos())
    ensures old(iter.err) == NoError ==>
              TokenBehind(iter, ValueAt(iter.input, old(iter.Pos()), old(iter.depth), ModeOf(iter, VisitorOf(slot))),
                          value, c, old(iter.depth), old(iter.captureIntact))
    ensures slots' == if slot.Some? then slots[slot.value := value] else slots
  {
    hide iter.BufferValid, iter.ReaderValid, iter.CapturedTo, ValueAt, TokenBehind;
    var v;
    v, c := VisitThenToken(iter, VisitorOf(slot));
    value := v;
    slots' := slots;
    if slot.Some? {
      slots' := slots[slot.value := v];
    }
  }

  /** One round of the loop. */
  method DecodeField(iter: Iterator, d: Decoder, cfg: FieldConfig, slots: map<nat, Value>,
                     ghost slots0: map<nat, Value>, ghost done: seq<Assignment>, ghost r: Scan<seq<Assignment>>,
                     ghost depth: int, ghost intact: bool, ghost clean: bool)
    returns (slots': map<nat, Value>, ghost done': seq<Assignment>, c: byte)
    requires iter.Valid() && iter.depth >= depth >= 1 && !d.SkipObject?
    requires clean ==> FieldsLoop(iter, r, done, COMMA, depth, intact, d, cfg)
    requires slots == Assigned(slots0, done)
    modifies iter, iter.buf
    ensures iter.Advanced() && iter.depth >= depth
    ensures iter.err == NoError ==> iter.CanUnread() && iter.Pos() > old(iter.Pos())
    ensures c != 0 ==> iter.Pos() > old(iter.Pos())
    ensures SkipWhitespace(iter.input, old(iter.Pos())) == |iter.input| ==> iter.err == Other
    ensures clean ==> FieldsLoop(iter, r, done', c, depth, intact, d, cfg)
    ensures slots' == Assigned(slots0, done')
  {
    hide iter.BufferValid, iter.ReaderValid, iter.CapturedTo, ValueAt, TokenBehind, KeyIn, StructFields, Assigned,
         Assign;
    ghost var p, m, good := iter.Pos(), ModeOf(iter, Reading), iter.err == NoError;
    ghost var k := KeyIn(iter.input, p, d, cfg);
    var slot := ReadKey(iter, d, cfg);
    ghost var next, depth' := iter.Pos(), iter.depth;
    ghost var keyed := good && k.KeyOf?;
    ghost var value;
    slots', value, c := DecodeValue(iter, slot, slots);
    done' := done + Assign(slot, value);
    AssignedMore(slots0, done, slot, value);
    if clean {
      if keyed {
        FieldsLoopStep(iter, p, slot, next, done, value, c, depth, intact, d, cfg);
      } else {
        if good {
          if k.BadKey? {
            BadKeyFails(iter.input, p, done, d, cfg, depth, m);
          }
        }
        LoopFailed(iter, r, done', c, depth, intact, d, cfg);
      }
    }
  }

  /** What decoding a struct into `slots` left behind. */
  ghost predicate Decoded(iter: Iterator, r: Scan<seq<Assignment>>, slots: map<nat, Value>, slots': map<nat, Value>,
                          depth: int)
    reads iter
  {
    match r
    case Done(done, next) =>
      slots' == Assigned(slots, done) && iter.Pos() == next && iter.err == NoError && iter.depth == depth
    case Fails => iter.err == Other
  }

  /**
   * The end of a decoding loop, behind the token `c`. `isObjectEnd`, which the tables use, steps back from a token
   * that does not belong there; the general decoder does not.
   */
  method EndFields(iter: Iterator, d: Decoder, c: byte)
    requires iter.Valid() && iter.depth >= 1 && (iter.err == NoError ==> iter.CanUnread())
    modifies iter`head, iter`depth, iter`err
    ensures iter.Valid() && iter.depth == old(iter.depth) - 1
    ensures c == CLOSE_BRACE ==> iter.head == old(iter.head) && iter.err == old(iter.err)
    ensures c != CLOSE_BRACE ==> iter.err == Other && iter.head >= old(iter.head) - 1
    ensures old(iter.err) != NoError ==> iter.head == old(iter.head)
  {
    hide iter.BufferValid, iter.ReaderValid, iter.CapturedTo;
    if c != CLOSE_BRACE {
      if d.Table? {
        iter.UnreadByte();
      }
      iter.ReportError();
    }
    var ok := iter.DecrementDepth();
  }

  /** The loop of `Decode`, in front of the first name. */
  method DecodeFields(iter: Iterator, d: Decoder, cfg: FieldConfig, slots: map<nat, Value>)
    returns (slots': map<nat, Value>)
    requires iter.Valid() && iter.depth >= 1 && !d.SkipObject?
    modifies iter, iter.buf
    ensures iter.Advanced() && iter.depth >= old(iter.depth) - 1
    ensures SkipWhitespace(iter.input, old(iter.Pos())) == |iter.input| ==> iter.err == Other
    ensures old(iter.err) == NoError ==>
              Decoded(iter, StructFields(iter.input, old(iter.Pos()), d, cfg, old(iter.depth), ModeOf(iter, Reading)),
                      slots, slots', old(iter.depth) - 1)
  {
    hide iter.BufferValid, iter.ReaderValid, iter.CapturedTo, StructFields, Assigned;
    ghost var p, depth, intact, clean := iter.Pos(), iter.depth, iter.captureIntact, iter.err == NoError;
    ghost var r := StructFields(iter.input, p, d, cfg, depth, ModeOf(iter, Reading));
    PrependNoItems(r);
    NothingAssigned(slots);
    ghost var done: seq<Assignment> := [];
    var c := COMMA;
    slots' := slots;
    while c == COMMA
      invariant iter.Advanced() && iter.depth >= depth
      invariant c != COMMA && iter.err == NoError ==> iter.CanUnread() && iter.Pos() > p
      invariant SkipWhitespace(iter.input, p) == |iter.input| ==> (c == COMMA && iter.Pos() == p) || iter.err == Other
      invariant clean ==> FieldsLoop(iter, r, done, c, depth, intact, d, cfg)
      invariant slots' == Assigned(slots, done)
      decreases |iter.input| - iter.Pos(), c == COMMA
    {
      slots', done, c := DecodeField(iter, d, cfg, slots', slots, done, r, depth, intact, clean);
    }
    EndFields(iter, d, c);
  }

  lemma NothingAssigned(slots: map<nat, Value>)
    ensures Assigned(slots, []) == slots
  {
  }

  /** `readObjectStart` */
  method ReadObjectStart(iter: Iterator) returns (more: bool)
    requires iter.Valid()
    modifies iter, iter.buf
    ensures iter.Kept()
    ensures old(iter.err) == NoError ==>
              match StartAt(iter.input, old(iter.Pos()))
              case Opens(next) => more && iter.Pos() == next && iter.err == NoError
              case NoFields(next) => !more && iter.Pos() == next && iter.err == NoError
              case NoObject => if more then AtInputEnd(iter) else iter.err == Other
  {
    hide iter.BufferValid, iter.ReaderValid, iter.CapturedTo, At, SkipWhitespace, IsWhitespace;
    var c := iter.NextToken();
    if c == OPEN_BRACE {
      c := iter.NextToken();
      if c == CLOSE_BRACE {
        return false;
      }
      iter.UnreadByte();
      return true;
    } else if c == LOWER_N {
      SkipThreeBytes(iter, LOWER_U, LOWER_L, LOWER_L);
      return false;
    }
    iter.ReportError();
    return false;
  }

  /** `Decode` of the decoder for no fields. */
  method DecodeSkipping(iter: Iterator, cfg: FieldConfig)
    requires iter.Valid() && iter.depth >= 0
    modifies iter, iter.buf
    ensures iter.Valid()
    ensures old(iter.err) == NoError ==>
              Decoded(
                iter, StructAt(iter.input, old(iter.Pos()), SkipObject, cfg, old(iter.depth), ModeOf(iter, Reading)),
                map[], map[], old(iter.depth))
  {
    hide iter.BufferValid, iter.ReaderValid, iter.CapturedTo, ValueFrom;
    NothingAssigned(map[]);
    ghost var j := SkipWhitespace(iter.input, iter.Pos());
    var valueType := WhatIsNext(iter);
    if valueType != ObjectValue && valueType != NilValue {
      iter.ReportError();
      return;
    }
    SkipNothing(iter.input, j);
    Skip(iter);
  }

  /** `Decode` of the other decoders; the struct is `slots`. On any buffering it makes the assignments of `StructAt`. */
  method DecodeStruct(iter: Iterator, d: Decoder, cfg: FieldConfig, slots: map<nat, Value>)
    returns (slots': map<nat, Value>)
    requires iter.Valid() && iter.depth >= 0 && !d.SkipObject?
    modifies iter, iter.buf
    ensures iter.Valid()
    ensures old(iter.err) == NoError ==>
              Decoded(iter, StructAt(iter.input, old(iter.Pos()), d, cfg, old(iter.depth), ModeOf(iter, Reading)),
                      slots, slots', old(iter.depth))
  {
    hide iter.BufferValid, iter.ReaderValid, iter.CapturedTo, StructFields, StartAt;
    NothingAssigned(slots);
    slots' := slots;
    var more := ReadObjectStart(iter);
    if !more {
      return;
    }
    var ok := iter.IncrementDepth();
    if !ok {
      return;
    }
    slots' := DecodeFields(iter, d, cfg, slots);
  }
}

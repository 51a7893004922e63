/**
 * `Skip` (iter_skip.go, with the strict skippers), `Read` (iter.go), `ReadArrayCB` (iter_array.go) and
 * `ReadObjectRawCB` (iter_object.go): one mutual recursion through the callbacks. A callback is a `Visitor`; both
 * kinds always ask for more, so the branches for a callback that returns false are not here.
 */
module Containers {
  import opened Bytes
  import opened StringMachines
  import opened FloatMachines
  import opened NumberTheorems
  import opened NumberSkips
  import opened ValueMachines
  import opened IterCore
  import opened Literals
  import opened IterStr
  import opened IterFloat
  import opened IterSkipStrict

  ghost function ModeOf(iter: Iterator, v: Visitor): Mode {
    Mode(v, iter.chunks, iter.parsers)
  }

  /** What a container reader returned and left behind is the outcome `r`. */
  ghost predicate Outcome<T>(iter: Iterator, r: Scan<T>, value: T, depth: int, intact: bool)
    reads iter
  {
    match r
    case Done(v, next) =>
      && value == v && iter.Pos() == next && iter.err == NoError
      && iter.depth == depth && iter.captureIntact == intact
    case Fails => iter.err == Other
  }

  /** At the end of the input, or in front of a number that the end of the input cuts off. */
  ghost predicate Stuck(iter: Iterator)
    reads iter
  {
    && 0 <= iter.Pos() <= |iter.input|
    && var j := SkipWhitespace(iter.input, iter.Pos());
       j < |iter.input| ==> IsNumberChar(iter.input[j])
  }

  /** At the end of the input with an error. */
  ghost predicate AtInputEnd(iter: Iterator)
    reads iter
  {
    && iter.err != NoError
    && 0 <= iter.Pos() <= |iter.input| && SkipWhitespace(iter.input, iter.Pos()) == |iter.input|
  }

  /** The same for a callback, which may leave io.EOF behind a number that is cut off. */
  ghost predicate CallbackOutcome(iter: Iterator, r: Scan<Value>, value: Value, depth: int, intact: bool)
    reads iter
  {
    if r.Fails? && iter.err != Other then iter.err != NoError && Stuck(iter)
    else Outcome(iter, r, value, depth, intact)
  }

  // ---------- Elements ----------

  /** A callback on the next value, and the token behind it. */
  method VisitThenToken(iter: Iterator, v: Visitor) returns (value: Value, c: byte)
    requires iter.Valid() && iter.depth >= 0
    modifies iter, iter.buf
    ensures iter.Advanced() && iter.depth >= old(iter.depth)
    ensures iter.err == NoError ==> iter.CanUnread() && iter.Pos() > old(iter.Pos())
    ensures c != 0 ==> iter.Pos() > old(iter.Pos())
    ensures old(iter.err) == NoError ==>
              TokenBehind(iter, ValueAt(iter.input, old(iter.Pos()), old(iter.depth), ModeOf(iter, v)), value, c,
                          old(iter.depth), old(iter.captureIntact))
    ensures SkipWhitespace(iter.input, old(iter.Pos())) == |iter.input| ==> iter.err == Other
    decreases |iter.input| - iter.Pos(), 5
  {
    hide iter.BufferValid, iter.ReaderValid, iter.CapturedTo, ValueAt;
    value := Visit(iter, v);
    c := iter.NextToken();
  }

  /** The state behind a callback with outcome `first` and the token `c` read after it. */
  ghost predicate TokenBehind(iter: Iterator, first: Scan<Value>, value: Value, c: byte, depth: int, intact: bool)
    reads iter
  {
    match first
    case Done(v, next) =>
      next <= |iter.input| &&
      var k := SkipWhitespace(iter.input, next);
      && value == v
      && if k < |iter.input|
         then c == iter.input[k] && iter.Pos() == k + 1 && iter.err == NoError
              && iter.depth == depth && iter.captureIntact == intact
         else c == 0 && iter.err != NoError
    case Fails => iter.err == Other || (iter.err != NoError && c != COMMA && c != CLOSE_BRACKET && c != CLOSE_BRACE)
  }

  /** The callback: `Skip`, or `ReadVal`, which for an empty interface is `Read`. */
  method Visit(iter: Iterator, v: Visitor) returns (value: Value)
    requires iter.Valid() && iter.depth >= 0
    modifies iter, iter.buf
    ensures iter.Advanced() && iter.depth >= old(iter.depth)
    ensures old(iter.err) == NoError ==>
              CallbackOutcome(iter, ValueAt(iter.input, old(iter.Pos()), old(iter.depth), ModeOf(iter, v)), value,
                              old(iter.depth), old(iter.captureIntact))
    ensures SkipWhitespace(iter.input, old(iter.Pos())) == |iter.input| ==> iter.err == Other
    decreases |iter.input| - iter.Pos(), 4
  {
    match v {
      case Skipping =>
        SkippedIsNothing(iter.input, iter.Pos(), iter.depth, ModeOf(iter, v));
        Skip(iter);
        value := Nothing;
      case Reading =>
        value := Read(iter);
    }
  }

  /** Where the loop of `ReadArrayCB` stands: `r` is the outcome of all elements, `c` the token just read. */
  ghost predicate ElementsLoop(
      iter: Iterator, r: Scan<seq<Value>>, items: seq<Value>, c: byte, depth: int, intact: bool, m: Mode)
    reads iter
  {
    || (r.Fails? && (iter.err == Other || (c != COMMA && c != CLOSE_BRACKET)))
    || (&& iter.err == NoError && iter.depth == depth && iter.captureIntact == intact
        && 0 <= iter.Pos() <= |iter.input|
        && if c == COMMA then r == PrependItems(items, Elements(iter.input, iter.Pos(), depth, m))
           else c == CLOSE_BRACKET && r == Done(items, iter.Pos()))
  }

  function PrependItems<T>(items: seq<T>, r: Scan<seq<T>>): Scan<seq<T>> {
    match r
    case Done(rest, next) => Done(items + rest, next)
    case Fails => Fails
  }

  /** One more element read: `before` were read, and the loop was at position `p`. */
  lemma ElementsLoopStep(
      iter: Iterator, p: nat, before: seq<Value>, value: Value, c: byte, depth: int, intact: bool, m: Mode)
    requires p <= |iter.input| && 0 <= iter.Pos() <= |iter.input|
    requires TokenBehind(iter, ValueAt(iter.input, p, depth, m), value, c, depth, intact)
    ensures ElementsLoop(iter, PrependItems(before, Elements(iter.input, p, depth, m)), before + [value], c,
                         depth, intact, m)
  {
    hide ValueAt;
    var first := ValueAt(iter.input, p, depth, m);
    if first.Done? {
      var k := SkipWhitespace(iter.input, first.next);
      if k < |iter.input| && c == COMMA {
        var rest := Elements(iter.input, k + 1, depth, m);
        if rest.Done? {
          assert before + ([value] + rest.value) == before + [value] + rest.value;
        }
      }
    }
  }

  /** The part of `ReadArrayCB` from the first element to the closing bracket. */
  method ReadElements(iter: Iterator, v: Visitor) returns (ret: bool, items: seq<Value>)
    requires iter.Valid() && iter.depth >= 1
    modifies iter, iter.buf
    ensures iter.Advanced() && iter.depth >= old(iter.depth) - 1
    ensures old(iter.err) == NoError ==>
              Outcome(iter, Elements(iter.input, old(iter.Pos()), old(iter.depth), ModeOf(iter, v)), items,
                      old(iter.depth) - 1, old(iter.captureIntact))
    ensures SkipWhitespace(iter.input, old(iter.Pos())) == |iter.input| ==> iter.err == Other
    decreases |iter.input| - iter.Pos(), 7
  {
    hide iter.BufferValid, iter.ReaderValid, iter.CapturedTo, Elements, TokenBehind, ValueAt;
    ghost var p, m := iter.Pos(), ModeOf(iter, v);
    ghost var r := Elements(iter.input, p, iter.depth, m);
    var c;
    items, c := FirstElement(iter, v);
    while c == COMMA
      invariant iter.Advanced() && iter.depth >= old(iter.depth)
      invariant iter.err == NoError ==> iter.CanUnread() && iter.Pos() > old(iter.Pos())
      invariant c != 0 ==> iter.Pos() > old(iter.Pos())
      invariant old(iter.err) == NoError ==>
          ElementsLoop(iter, r, items, c, old(iter.depth), old(iter.captureIntact), m)
      invariant SkipWhitespace(iter.input, p) == |iter.input| ==> iter.err == Other
      decreases |iter.input| - iter.Pos(), c == COMMA
    {
      items, c := NextElement(iter, v, items, r, old(iter.depth), old(iter.captureIntact), old(iter.err) == NoError);
    }
    ret := EndArray(iter, c);
  }

  /** The end of `ReadArrayCB`, behind the token `c`. */
  method EndArray(iter: Iterator, c: byte) returns (ret: bool)
    requires iter.Valid() && iter.depth >= 1
    requires iter.err == NoError ==> iter.CanUnread()
    modifies iter`head, iter`depth, iter`err
    ensures iter.Valid() && iter.depth == old(iter.depth) - 1
    ensures iter.head == if c == CLOSE_BRACKET || old(iter.err) != NoError then old(iter.head) else old(iter.head) - 1
    ensures iter.err == if c == CLOSE_BRACKET then old(iter.err) else Other
  {
    hide iter.BufferValid, iter.ReaderValid, iter.CapturedTo;
    if c != CLOSE_BRACKET {
      iter.UnreadByte();
      iter.ReportError();
      ret := iter.DecrementDepth();
      return false;
    }
    ret := iter.DecrementDepth();
  }

  lemma PrependNoItems<T>(r: Scan<seq<T>>)
    ensures PrependItems([], r) == r
  {
    if r.Done? {
      assert [] + r.value == r.value;
    }
  }

  /** The first element of `ReadArrayCB`. */
  method FirstElement(iter: Iterator, v: Visitor) returns (items: seq<Value>, c: byte)
    requires iter.Valid() && iter.depth >= 1
    modifies iter, iter.buf
    ensures iter.Advanced() && iter.depth >= old(iter.depth)
    ensures iter.err == NoError ==> iter.CanUnread() && iter.Pos() > old(iter.Pos())
    ensures c != 0 ==> iter.Pos() > old(iter.Pos())
    ensures old(iter.err) == NoError ==>
              ElementsLoop(iter, Elements(iter.input, old(iter.Pos()), old(iter.depth), ModeOf(iter, v)), items, c,
                           old(iter.depth), old(iter.captureIntact), ModeOf(iter, v))
    ensures SkipWhitespace(iter.input, old(iter.Pos())) == |iter.input| ==> iter.err == Other
    decreases |iter.input| - iter.Pos(), 6
  {
    hide iter.BufferValid, iter.ReaderValid, iter.CapturedTo, Elements, TokenBehind, ValueAt, ElementsLoop;
    ghost var p, m := iter.Pos(), ModeOf(iter, v);
    var value;
    value, c := VisitThenToken(iter, v);
    items := [value];
    if old(iter.err) == NoError {
      ElementsLoopStep(iter, p, [], value, c, old(iter.depth), old(iter.captureIntact), m);
      PrependNoItems(Elements(iter.input, p, old(iter.depth), m));
      assert [] + [value] == items;
    }
  }

  /** The body of the loop of `ReadArrayCB`. */
  method NextElement(iter: Iterator, v: Visitor, items: seq<Value>, ghost r: Scan<seq<Value>>, ghost depth: int,
                     ghost intact: bool, ghost clean: bool)
    returns (items': seq<Value>, c: byte)
    requires iter.Valid() && iter.depth >= depth >= 1
    requires clean ==> ElementsLoop(iter, r, items, COMMA, depth, intact, ModeOf(iter, v))
    modifies iter, iter.buf
    ensures iter.Advanced() && iter.depth >= depth
    ensures iter.err == NoError ==> iter.CanUnread() && iter.Pos() > old(iter.Pos())
    ensures c != 0 ==> iter.Pos() > old(iter.Pos())
    ensures clean ==> ElementsLoop(iter, r, items', c, depth, intact, ModeOf(iter, v))
    decreases |iter.input| - iter.Pos(), 6
  {
    hide iter.BufferValid, iter.ReaderValid, iter.CapturedTo, Elements, TokenBehind, ValueAt;
    ghost var p, m := iter.Pos(), ModeOf(iter, v);
    var value;
    value, c := VisitThenToken(iter, v);
    if clean && old(iter.err) == NoError {
      ElementsLoopStep(iter, p, items, value, c, depth, intact, m);
    }
    items' := items + [value];
  }

  /** The branch of `ReadArrayCB` for `[`. */
  method ReadAfterBracket(iter: Iterator, v: Visitor) returns (ret: bool, items: seq<Value>)
    requires iter.Valid() && iter.depth >= 0
    modifies iter, iter.buf
    ensures iter.Advanced() && iter.depth >= old(iter.depth)
    ensures old(iter.err) == NoError ==>
              Outcome(iter, AfterBracket(iter.input, old(iter.Pos()), old(iter.depth), ModeOf(iter, v)), items,
                      old(iter.depth), old(iter.captureIntact))
    decreases |iter.input| - iter.Pos(), 8
  {
    hide iter.BufferValid, iter.ReaderValid, iter.CapturedTo, Elements;
    var ok := iter.IncrementDepth();
    if !ok {
      return false, [];
    }
    var c := iter.NextToken();
    if c != CLOSE_BRACKET {
      iter.UnreadByte();
      ret, items := ReadElements(iter, v);
      return;
    }
    ret := iter.DecrementDepth();
    items := [];
  }

  /** `ReadArrayCB`; with the callback of `Read`, `items` are the elements it appended. */
  method ReadArrayCB(iter: Iterator, v: Visitor) returns (ret: bool, items: seq<Value>)
    requires iter.Valid() && iter.depth >= 0
    modifies iter, iter.buf
    ensures iter.Advanced() && iter.depth >= old(iter.depth)
    ensures old(iter.err) == NoError ==>
              Outcome(iter, ArrayAt(iter.input, old(iter.Pos()), old(iter.depth), ModeOf(iter, v)), items,
                      old(iter.depth), old(iter.captureIntact))
    decreases |iter.input| - iter.Pos(), 0
  {
    hide iter.BufferValid, iter.ReaderValid, iter.CapturedTo, Elements, At;
    var c := iter.NextToken();
    if c == OPEN_BRACKET {
      ret, items := ReadAfterBracket(iter, v);
      return;
    }
    if c == LOWER_N {
      SkipThreeBytes(iter, LOWER_U, LOWER_L, LOWER_L);
      return true, []; // null
    }
    iter.UnreadByte();
    iter.ReportError();
    return false, [];
  }

  // ---------- Object keys ----------

  /** A key that may be handed to a callback: nil, or one string, in a copy or in the iterator's own buffer. */
  ghost predicate IsKey(rs: RawString, iter: Iterator)
    reads if rs.View? then {rs.buf} else {}
  {
    && rs.InBounds()
    && (!rs.NilString? ==> IsString(rs))
    && (rs.View? ==> rs.buf == iter.buf)
  }

  /** The name a key stands for. */
  ghost function KeyName(rs: RawString): seq<byte>
    reads if rs.View? then {rs.buf} else {}
  {
    if !rs.NilString? && rs.InBounds() && Decode(rs.Content(), 0).Ok? then Decode(rs.Content(), 0).value else []
  }

  /**
   * The token behind a key. The key is turned into a copy unless that token is in the buffer already, so it
   * still holds its bytes when the callback gets it, although reading on may have replaced the buffer.
   */
  method TokenAfterKey(iter: Iterator, rs: RawString) returns (rs': RawString, c: byte)
    requires iter.Valid() && IsKey(rs, iter)
    modifies iter, iter.buf
    ensures iter.Kept()
    ensures IsKey(rs', iter) && KeyName(rs') == old(KeyName(rs))
    ensures rs'.NilString? == rs.NilString?
    ensures SkipWhitespace(iter.input, old(iter.Pos())) < |iter.input| ==>
              && iter.Pos() == SkipWhitespace(iter.input, old(iter.Pos())) + 1
              && c == iter.input[iter.Pos() - 1] && iter.err == old(iter.err) && iter.CanUnread()
    ensures SkipWhitespace(iter.input, old(iter.Pos())) == |iter.input| ==>
              c == 0 && iter.err == iter.Exhausted(old(iter.err))
  {
    hide iter.BufferValid, iter.ReaderValid, iter.CapturedTo, Decode, RawEnd, SkipWhitespace, IsWhitespace;
    var buffered := iter.IsNextTokenBuffered();
    rs' := rs;
    if !buffered {
      rs' := rs.Realize();
    }
    c := iter.NextToken();
    if rs'.View? {
      assert rs'.Content() == iter.buf[..][rs'.from..rs'.to];
    }
  }

  // ---------- Fields ----------

  /** The callback of `Read` on one field: `obj[field] = elem`. */
  method VisitField(iter: Iterator, v: Visitor, rs: RawString, obj: map<seq<byte>, Value>)
    returns (obj': map<seq<byte>, Value>, value: Value, c: byte)
    requires iter.Valid() && iter.depth >= 0 && IsKey(rs, iter)
    modifies iter, iter.buf
    ensures iter.Advanced() && iter.depth >= old(iter.depth)
    ensures iter.err == NoError ==> iter.CanUnread() && iter.Pos() > old(iter.Pos())
    ensures c != 0 ==> iter.Pos() > old(iter.Pos())
    ensures old(iter.err) == NoError ==>
              TokenBehind(iter, ValueAt(iter.input, old(iter.Pos()), old(iter.depth), ModeOf(iter, v)), value, c,
                          old(iter.depth), old(iter.captureIntact))
    ensures v.Reading? ==> obj' == obj[old(KeyName(rs)) := value]
    decreases |iter.input| - iter.Pos(), 6
  {
    hide iter.BufferValid, iter.ReaderValid, iter.CapturedTo, ValueAt, TokenBehind, Decode, RawEnd;
    var field := [];
    if v.Reading? {
      field := RawToString(rs);
    }
    value, c := VisitThenToken(iter, v);
    obj' := obj[field := value];
  }

  /** A field whose key is read: the colon, the callback, and the token behind its value. */
  method ReadField(iter: Iterator, v: Visitor, rs: RawString, obj: map<seq<byte>, Value>)
    returns (ok: bool, obj': map<seq<byte>, Value>, value: Value, c: byte)
    requires iter.Valid() && iter.depth >= 0 && IsKey(rs, iter)
    modifies iter, iter.buf
    ensures iter.Advanced() && iter.depth >= old(iter.depth)
    ensures iter.err == NoError ==> iter.CanUnread() && iter.Pos() > old(iter.Pos())
    ensures ok && c != 0 ==> iter.Pos() > old(iter.Pos())
    ensures !ok ==> iter.err == Other
    ensures old(iter.err) == NoError ==>
              var t := SkipWhitespace(iter.input, old(iter.Pos()));
              if t < |iter.input| && iter.input[t] == COLON
              then ok && TokenBehind(iter, ValueAt(iter.input, t + 1, old(iter.depth), ModeOf(iter, v)), value, c,
                                     old(iter.depth), old(iter.captureIntact))
              else !ok
    ensures ok && v.Reading? ==> obj' == obj[old(KeyName(rs)) := value]
    decreases |iter.input| - iter.Pos(), 7
  {
    hide iter.BufferValid, iter.ReaderValid, iter.CapturedTo, ValueAt, TokenBehind, IsKey, KeyName;
    var key;
    key, c := TokenAfterKey(iter, rs);
    if c != COLON {
      iter.UnreadByte();
      iter.ReportError();
      return false, obj, Nothing, c;
    }
    obj', value, c := VisitField(iter, v, key, obj);
    ok := true;
  }

  /** A key just read stands for what is decoded at its place. */
  lemma KeyRead(rs: RawString, iter: Iterator, from: nat, to: nat)
    requires RawEnd(iter.input, from) == Some(to) && Holds(rs, iter, from, to)
    ensures IsKey(rs, iter) && Decode(iter.input, from).Ok? && KeyName(rs) == Decode(iter.input, from).value
  {
    hide Decode, RawEnd;
    RawAgreesWithDecoded(rs, iter, from, to);
  }

  /** Where the loop of `ReadObjectRawCB` stands: `r` is the outcome of all fields, `c` the token just read. */
  ghost predicate MembersLoop(
      iter: Iterator, r: Scan<seq<Field>>, fields: seq<Field>, c: byte, depth: int, intact: bool, m: Mode)
    reads iter
  {
    || (r.Fails? && (iter.err == Other || (c != COMMA && c != CLOSE_BRACE)))
    || (&& iter.err == NoError && iter.depth == depth && iter.captureIntact == intact
        && 0 <= iter.Pos() <= |iter.input|
        && if c == COMMA then r == PrependItems(fields, MembersAfterComma(iter.input, iter.Pos(), depth, m))
           else c == CLOSE_BRACE && r == Done(fields, iter.Pos()))
  }

  /** One more field read, whose name ends at `i`. */
  lemma MembersLoopStep(iter: Iterator, i: nat, key: seq<byte>, before: seq<Field>, value: Value, c: byte,
                        depth: int, intact: bool, m: Mode)
    requires i <= |iter.input| && 0 <= iter.Pos() <= |iter.input|
    requires var t := SkipWhitespace(iter.input, i);
      && t < |iter.input| && iter.input[t] == COLON
      && TokenBehind(iter, ValueAt(iter.input, t + 1, depth, m), value, c, depth, intact)
    ensures MembersLoop(iter, PrependItems(before, Members(iter.input, i, key, depth, m)), before + [(key, value)], c,
                        depth, intact, m)
  {
    hide ValueAt, MembersAfterComma;
    var t := SkipWhitespace(iter.input, i);
    var first := ValueAt(iter.input, t + 1, depth, m);
    if first.Done? {
      var k := SkipWhitespace(iter.input, first.next);
      if k < |iter.input| && c == COMMA {
        var rest := MembersAfterComma(iter.input, k + 1, depth, m);
        if rest.Done? {
          assert before + ([(key, value)] + rest.value) == before + [(key, value)] + rest.value;
        }
      }
    }
  }

  lemma NoColonFails(s: seq<byte>, i: nat, key: seq<byte>, depth: int, m: Mode)
    requires i <= |s|
    requires var t := SkipWhitespace(s, i); t < |s| ==> s[t] != COLON
    ensures Members(s, i, key, depth, m) == Fails
  {
  }

  /** The callback of `Read` keeps the map of the fields. */
  lemma {:induction false} FieldMapAppend(fields: seq<Field>, key: seq<byte>, v: Value)
    ensures FieldMap(fields + [(key, v)]) == FieldMap(fields)[key := v]
    decreases |fields|
  {
    var all := fields + [(key, v)];
    if fields == [] {
      assert all[1..] == [];
    } else {
      assert all[1..] == fields[1..] + [(key, v)];
      FieldMapAppend(fields[1..], key, v);
    }
  }

  /** A field whose name ends at the cursor, in the loop of `ReadObjectRawCB`. */
  method FieldInLoop(iter: Iterator, v: Visitor, rs: RawString, obj: map<seq<byte>, Value>,
                     ghost fields: seq<Field>, ghost r: Scan<seq<Field>>, ghost depth: int, ghost intact: bool,
                     ghost clean: bool)
    returns (ok: bool, obj': map<seq<byte>, Value>, ghost fields': seq<Field>, c: byte)
    requires iter.Valid() && iter.depth >= depth >= 1 && IsKey(rs, iter)
    requires clean ==>
      || (r.Fails? && iter.err == Other)
      || (&& iter.err == NoError && iter.depth == depth && iter.captureIntact == intact
          && r == PrependItems(fields, Members(iter.input, iter.Pos(), KeyName(rs), depth, ModeOf(iter, v))))
    requires v.Reading? ==> obj == FieldMap(fields)
    modifies iter, iter.buf
    ensures iter.Advanced() && iter.depth >= depth
    ensures iter.err == NoError ==> iter.CanUnread() && iter.Pos() > old(iter.Pos())
    ensures ok && c != 0 ==> iter.Pos() > old(iter.Pos())
    ensures !ok ==> iter.err == Other && (clean ==> r.Fails?)
    ensures ok && clean ==> MembersLoop(iter, r, fields', c, depth, intact, ModeOf(iter, v))
    ensures ok && v.Reading? ==> obj' == FieldMap(fields')
    decreases |iter.input| - iter.Pos(), 8
  {
    hide iter.BufferValid, iter.ReaderValid, iter.CapturedTo, ValueAt, TokenBehind, IsKey, KeyName, Members,
         MembersLoop;
    ghost var p, key, m := iter.Pos(), KeyName(rs), ModeOf(iter, v);
    var value;
    ok, obj', value, c := ReadField(iter, v, rs, obj);
    fields' := fields + [(key, value)];
    FieldMapAppend(fields, key, value);
    if clean && old(iter.err) == NoError {
      if ok {
        MembersLoopStep(iter, p, key, fields, value, c, depth, intact, m);
      } else {
        NoColonFails(iter.input, p, key, depth, m);
      }
    } else if clean && ok {
      LoopBroken(iter, r, fields', c, depth, intact, m);
    }
  }

  lemma LoopBroken(iter: Iterator, r: Scan<seq<Field>>, fields: seq<Field>, c: byte, depth: int, intact: bool, m: Mode)
    requires r.Fails? && iter.err == Other
    ensures MembersLoop(iter, r, fields, c, depth, intact, m)
  {
  }

  /** The body of the loop of `ReadObjectRawCB`. */
  method NextField(iter: Iterator, v: Visitor, obj: map<seq<byte>, Value>, ghost fields: seq<Field>,
                   ghost r: Scan<seq<Field>>, ghost depth: int, ghost intact: bool, ghost clean: bool)
    returns (ok: bool, obj': map<seq<byte>, Value>, ghost fields': seq<Field>, c: byte)
    requires iter.Valid() && iter.depth >= depth >= 1
    requires clean ==> MembersLoop(iter, r, fields, COMMA, depth, intact, ModeOf(iter, v))
    requires v.Reading? ==> obj == FieldMap(fields)
    modifies iter, iter.buf
    ensures iter.Advanced() && iter.depth >= depth
    ensures iter.err == NoError ==> iter.CanUnread() && iter.Pos() > old(iter.Pos())
    ensures ok && c != 0 ==> iter.Pos() > old(iter.Pos())
    ensures !ok ==> iter.err == Other && (clean ==> r.Fails?)
    ensures ok && clean ==> MembersLoop(iter, r, fields', c, depth, intact, ModeOf(iter, v))
    ensures ok && v.Reading? ==> obj' == FieldMap(fields')
    decreases |iter.input| - iter.Pos(), 9
  {
    hide iter.BufferValid, iter.ReaderValid, iter.CapturedTo, IsKey, KeyName, Members, Holds, RawEnd, Decode,
         RawTokenAt;
    ghost var p := iter.Pos();
    var rs := ReadRawString(iter);
    NextKey(iter, p, rs, old(iter.err) == NoError);
    ok, obj', fields', c := FieldInLoop(iter, v, rs, obj, fields, r, depth, intact, clean);
  }

  /** The key `ReadRawString` returned, started at `p`. */
  lemma NextKey(iter: Iterator, p: nat, rs: RawString, clean: bool)
    requires p <= |iter.input|
    requires clean ==>
      match RawTokenAt(iter.input, p)
      case RawText(from, to) => Holds(rs, iter, from, to)
      case RawNull(to) => rs.NilString?
      case RawError => rs.NilString?
    requires !clean ==> rs.NilString?
    ensures IsKey(rs, iter)
    ensures clean && KeyAt(iter.input, p).Ok? ==> KeyName(rs) == KeyAt(iter.input, p).value
  {
    hide Decode, RawEnd, Holds, KeyName, IsKey;
    if clean && RawTokenAt(iter.input, p).RawText? {
      var t := RawTokenAt(iter.input, p);
      KeyRead(rs, iter, t.from, t.to);
    } else {
      NilKey(rs, iter);
    }
  }

  lemma NilKey(rs: RawString, iter: Iterator)
    requires rs.NilString?
    ensures IsKey(rs, iter) && KeyName(rs) == []
  {
  }

  /** The part of `ReadObjectRawCB` from the end of the first key to the closing brace. */
  method ReadMembers(iter: Iterator, v: Visitor, rs: RawString)
    returns (ret: bool, obj: map<seq<byte>, Value>, ghost fields: seq<Field>)
    requires iter.Valid() && iter.depth >= 1 && IsKey(rs, iter)
    modifies iter, iter.buf
    ensures iter.Advanced() && iter.depth >= old(iter.depth) - 1
    ensures old(iter.err) == NoError ==>
              Outcome(iter, Members(iter.input, old(iter.Pos()), old(KeyName(rs)), old(iter.depth), ModeOf(iter, v)),
                      fields, old(iter.depth) - 1, old(iter.captureIntact))
    ensures v.Reading? && iter.err == NoError ==> obj == FieldMap(fields)
    decreases |iter.input| - iter.Pos(), 10
  {
    hide iter.BufferValid, iter.ReaderValid, iter.CapturedTo, IsKey, KeyName, Members, MembersAfterComma,
         PrependItems, SkipWhitespace;
    ghost var depth, intact, clean := iter.depth, iter.captureIntact, iter.err == NoError;
    ghost var r := Members(iter.input, iter.Pos(), KeyName(rs), depth, ModeOf(iter, v));
    PrependNoItems(r);
    var ok, c;
    ok, obj, fields, c := FieldInLoop(iter, v, rs, map[], [], r, depth, intact, clean);
    if !ok {
      return false, obj, fields;
    }
    while c == COMMA
      invariant iter.Advanced() && iter.depth >= depth
      invariant iter.err == NoError ==> iter.CanUnread() && iter.Pos() > old(iter.Pos())
      invariant c != 0 ==> iter.Pos() > old(iter.Pos())
      invariant clean ==> MembersLoop(iter, r, fields, c, depth, intact, ModeOf(iter, v))
      invariant v.Reading? ==> obj == FieldMap(fields)
      decreases |iter.input| - iter.Pos(), c == COMMA
    {
      ok, obj, fields, c := NextField(iter, v, obj, fields, r, depth, intact, clean);
      if !ok {
        return false, obj, fields;
      }
    }
    if c != CLOSE_BRACE {
      iter.UnreadByte();
      iter.ReportError();
      return false, obj, fields;
    }
    ret := iter.DecrementDepth();
  }

  /** The part of `ReadObjectRawCB` behind the quote of the first name. */
  method ReadFirstMember(iter: Iterator, v: Visitor)
    returns (ret: bool, obj: map<seq<byte>, Value>, ghost fields: seq<Field>)
    requires iter.Valid() && iter.depth >= 1
    modifies iter, iter.buf
    ensures iter.Advanced() && iter.depth >= old(iter.depth) - 1
    ensures old(iter.err) == NoError ==>
              match Decode(iter.input, old(iter.Pos()))
              case Ok(key, next) =>
                Outcome(iter, Members(iter.input, next, key, old(iter.depth), ModeOf(iter, v)), fields,
                        old(iter.depth) - 1, old(iter.captureIntact))
              case Bad => iter.err == Other
    ensures v.Reading? && iter.err == NoError ==> obj == FieldMap(fields)
    decreases |iter.input| - iter.Pos(), 11
  {
    hide iter.BufferValid, iter.ReaderValid, iter.CapturedTo, IsKey, KeyName, Members, Decode, RawEnd, Holds;
    ghost var p := iter.Pos();
    var rs := ReadRawStringInner(iter);
    FirstKey(iter, p, rs, old(iter.err) == NoError);
    ret, obj, fields := ReadMembers(iter, v, rs);
  }

  /** The branch of `ReadObjectRawCB` for `{`. */
  method ReadAfterBrace(iter: Iterator, v: Visitor)
    returns (ret: bool, obj: map<seq<byte>, Value>, ghost fields: seq<Field>)
    requires iter.Valid() && iter.depth >= 0
    modifies iter, iter.buf
    ensures iter.Advanced() && iter.depth >= old(iter.depth)
    ensures old(iter.err) == NoError ==>
              Outcome(iter, AfterBrace(iter.input, old(iter.Pos()), old(iter.depth), ModeOf(iter, v)), fields,
                      old(iter.depth), old(iter.captureIntact))
    ensures v.Reading? && iter.err == NoError ==> obj == FieldMap(fields)
    decreases |iter.input| - iter.Pos(), 12
  {
    hide iter.BufferValid, iter.ReaderValid, iter.CapturedTo, Members, Decode, SkipWhitespace, IsWhitespace;
    obj, fields := map[], [];
    var ok := iter.IncrementDepth();
    if !ok {
      return false, obj, fields;
    }
    var c := iter.NextToken();
    if c == QUOTE {
      ret, obj, fields := ReadFirstMember(iter, v);
      return;
    }
    if c == CLOSE_BRACE {
      ret := iter.DecrementDepth();
      return;
    }
    iter.UnreadByte();
    iter.ReportError();
    ret := iter.DecrementDepth();
    return false, obj, fields;
  }

  /** The key `readRawStringInner` returned, started at `p`. */
  lemma FirstKey(iter: Iterator, p: nat, rs: RawString, clean: bool)
    requires p <= |iter.input|
    requires clean ==>
      match RawEnd(iter.input, p)
      case Some(end) => Holds(rs, iter, p, end)
      case None => rs.NilString?
    requires !clean ==> rs.NilString?
    ensures IsKey(rs, iter)
    ensures clean && Decode(iter.input, p).Ok? ==>
              && KeyName(rs) == Decode(iter.input, p).value
              && RawEnd(iter.input, p) == Some(Decode(iter.input, p).next)
    ensures clean && Decode(iter.input, p).Bad? ==> RawEnd(iter.input, p) == None
  {
    hide Decode, RawEnd, Holds, KeyName, IsKey;
    RawEndIffDecode(iter.input, p);
    if clean && RawEnd(iter.input, p).Some? {
      KeyRead(rs, iter, p, RawEnd(iter.input, p).value);
    } else {
      NilKey(rs, iter);
    }
  }

  /** `ReadObjectRawCB`; with the callback of `Read`, `obj` is the map it filled. */
  method ReadObjectRawCB(iter: Iterator, v: Visitor)
    returns (ret: bool, obj: map<seq<byte>, Value>, ghost fields: seq<Field>)
    requires iter.Valid() && iter.depth >= 0
    modifies iter, iter.buf
    ensures iter.Advanced() && iter.depth >= old(iter.depth)
    ensures old(iter.err) == NoError ==>
              Outcome(iter, ObjectAt(iter.input, old(iter.Pos()), old(iter.depth), ModeOf(iter, v)), fields,
                      old(iter.depth), old(iter.captureIntact))
    ensures v.Reading? && iter.err == NoError ==> obj == FieldMap(fields)
    decreases |iter.input| - iter.Pos(), 0
  {
    hide iter.BufferValid, iter.ReaderValid, iter.CapturedTo, AfterBrace, At;
    obj, fields := map[], [];
    var c := iter.NextToken();
    if c == OPEN_BRACE {
      ret, obj, fields := ReadAfterBrace(iter, v);
      return;
    }
    if c == LOWER_N {
      SkipThreeBytes(iter, LOWER_U, LOWER_L, LOWER_L);
      return true, obj, fields; // null
    }
    iter.UnreadByte();
    iter.ReportError();
    return false, obj, fields;
  }

  // ---------- Skip ----------

  /** `skipArray`; the bracket is consumed. */
  method SkipArray(iter: Iterator)
    requires iter.Valid() && iter.depth >= 0 && iter.Pos() > 0
    requires iter.err == NoError ==> iter.CanUnread()
    modifies iter, iter.buf
    ensures iter.AdvancedFrom(old(iter.Pos()) - 1) && iter.depth >= old(iter.depth)
    ensures old(iter.err) == NoError ==>
              AnyOutcome(iter, ArrayAt(iter.input, old(iter.Pos()) - 1, old(iter.depth), ModeOf(iter, Skipping)),
                         old(iter.depth), old(iter.captureIntact))
    decreases |iter.input| - iter.Pos() + 1, 1
  {
    hide iter.BufferValid, iter.ReaderValid, iter.CapturedTo, ArrayAt;
    iter.UnreadByte();
    var ret, items := ReadArrayCB(iter, Skipping);
  }

  /** `skipObject`; the brace is consumed. */
  method SkipObject(iter: Iterator)
    requires iter.Valid() && iter.depth >= 0 && iter.Pos() > 0
    requires iter.err == NoError ==> iter.CanUnread()
    modifies iter, iter.buf
    ensures iter.AdvancedFrom(old(iter.Pos()) - 1) && iter.depth >= old(iter.depth)
    ensures old(iter.err) == NoError ==>
              AnyOutcome(iter, ObjectAt(iter.input, old(iter.Pos()) - 1, old(iter.depth), ModeOf(iter, Skipping)),
                         old(iter.depth), old(iter.captureIntact))
    decreases |iter.input| - iter.Pos() + 1, 1
  {
    hide iter.BufferValid, iter.ReaderValid, iter.CapturedTo, ObjectAt;
    iter.UnreadByte();
    var ret, obj, fields := ReadObjectRawCB(iter, Skipping);
  }

  /** The outcome `r`, whatever value it has. */
  ghost predicate AnyOutcome<T>(iter: Iterator, r: Scan<T>, depth: int, intact: bool)
    reads iter
  {
    match r
    case Done(_, next) =>
      iter.Pos() == next && iter.err == NoError && iter.depth == depth && iter.captureIntact == intact
    case Fails => iter.err == Other
  }

  /** The same for `Skip`, which may leave io.EOF behind a number that ends the input. */
  ghost predicate SkipOutcome(iter: Iterator, r: Scan<Value>, depth: int, intact: bool)
    reads iter
  {
    if r.Fails? && iter.err != Other then iter.err != NoError && Stuck(iter) else AnyOutcome(iter, r, depth, intact)
  }

  /** The case of `Skip` for a zero, which is read as a float32. */
  method SkipZero(iter: Iterator)
    requires iter.Valid() && iter.Pos() > 0 && iter.input[iter.Pos() - 1] == ZERO
    requires iter.err == NoError ==> iter.CanUnread()
    modifies iter, iter.buf
    ensures iter.AdvancedFrom(old(iter.Pos()) - 1) && iter.depth == old(iter.depth)
    ensures old(iter.err) == NoError ==>
              var i := old(iter.Pos()) - 1;
              SkipLeaves(iter, FloatAt(iter.input, i, BufferEnd(iter.input, iter.chunks, i), F32, iter.parsers),
                         old(iter.captureIntact))
  {
    hide iter.BufferValid, iter.ReaderValid, iter.CapturedTo, FloatResult, FloatAt, BufferEnd, FastFrom, Cut;
    ghost var i := iter.Pos() - 1;
    iter.UnreadByte();
    var negative, ret := ReadFloat(iter, F32);
    if old(iter.err) == NoError {
      SkipNothing(iter.input, i);
      FloatLeaves(iter, i, BufferEnd(iter.input, iter.chunks, i), F32, ret, old(iter.captureIntact));
    }
  }

  /**
   * `Skip`. On any buffering: where `ValueAt` is done it consumes exactly the value, without an error and with
   * the depth restored; where `ValueAt` fails it reports an error.
   */
  method Skip(iter: Iterator)
    requires iter.Valid() && iter.depth >= 0
    modifies iter, iter.buf
    ensures iter.Advanced() && iter.depth >= old(iter.depth)
    ensures old(iter.err) == NoError ==>
              SkipOutcome(iter, ValueAt(iter.input, old(iter.Pos()), old(iter.depth), ModeOf(iter, Skipping)),
                          old(iter.depth), old(iter.captureIntact))
    ensures var j := SkipWhitespace(iter.input, old(iter.Pos()));
      old(iter.err) == NoError && j < |iter.input| ==>
        NumberSkipped(iter, j, ValueFrom(iter.input, j, old(iter.depth), ModeOf(iter, Skipping)),
                      old(iter.captureIntact))
    ensures SkipWhitespace(iter.input, old(iter.Pos())) == |iter.input| ==> iter.err == Other
    decreases |iter.input| - iter.Pos(), 3
  {
    hide iter.BufferValid, iter.ReaderValid, iter.CapturedTo, ValueFrom;
    var c := iter.NextToken();
    if c == 0 { // no token, or a NUL byte, which starts no value
      if iter.Pos() > 0 && SkipWhitespace(iter.input, old(iter.Pos())) < |iter.input| {
        NulIsNoValue(iter.input, iter.Pos() - 1, iter.depth, ModeOf(iter, Skipping));
      }
      iter.UnreadByte();
      iter.ReportError();
      return;
    }
    SkipFrom(iter, c);
  }

  lemma NulIsNoValue(s: seq<byte>, j: nat, depth: int, m: Mode)
    requires j < |s| && s[j] == 0
    ensures ValueFrom(s, j, depth, m) == Fails
  {
  }

  /** What `Skip` leaves behind a number at `j`; only a number can leave io.EOF. */
  ghost predicate NumberSkipped(iter: Iterator, j: nat, r: Scan<Value>, intact: bool)
    requires j < |iter.input|
    reads iter
  {
    if StartsNumber(iter.input[j])
    then SkipLeaves(iter, SkipNumberAt(iter.input, j, BufferEnd(iter.input, iter.chunks, j), iter.parsers), intact)
    else r.Fails? ==> iter.err == Other
  }

  /** The outcome of a number, from what skipping it leaves. */
  lemma NumberOutcome(iter: Iterator, j: nat, depth: int, intact: bool)
    requires j < |iter.input| && StartsNumber(iter.input[j]) && iter.depth == depth
    requires SkipLeaves(iter, SkipNumberAt(iter.input, j, BufferEnd(iter.input, iter.chunks, j), iter.parsers), intact)
    ensures SkipOutcome(iter, NumberValueAt(iter.input, j, ModeOf(iter, Skipping)), depth, intact)
  {
    hide SkipNumberAt, BufferEnd, Stuck, NumberEnd;
    if 0 <= iter.Pos() <= |iter.input| && NumberEnd(iter.input, iter.Pos()) == |iter.input| {
      CutNumberIsStuck(iter);
    }
  }

  /** The switch of `Skip`; its token `c` is not NUL. */
  method SkipFrom(iter: Iterator, c: byte)
    requires iter.Valid() && iter.depth >= 0
    requires 0 < iter.Pos() && c == iter.input[iter.Pos() - 1]
    requires iter.err == NoError ==> iter.CanUnread()
    modifies iter, iter.buf
    ensures iter.AdvancedFrom(old(iter.Pos()) - 1) && iter.depth >= old(iter.depth)
    ensures old(iter.err) == NoError ==>
              SkipOutcome(iter, ValueFrom(iter.input, old(iter.Pos()) - 1, old(iter.depth), ModeOf(iter, Skipping)),
                          old(iter.depth), old(iter.captureIntact))
    ensures old(iter.err) == NoError ==>
              NumberSkipped(iter, old(iter.Pos()) - 1,
                            ValueFrom(iter.input, old(iter.Pos()) - 1, old(iter.depth), ModeOf(iter, Skipping)),
                            old(iter.captureIntact))
    decreases |iter.input| - iter.Pos() + 1, 2
  {
    hide iter.BufferValid, iter.ReaderValid, iter.CapturedTo, ArrayAt, ObjectAt, At, SkippedNumber,
         FloatAt, RawEnd, NumberValueAt, SkipLeaves, BufferEnd, Stuck;
    ghost var good, j := iter.err == NoError, iter.Pos() - 1;
    if c == QUOTE {
      SkipString(iter);
    } else if c == LOWER_N {
      SkipThreeBytes(iter, LOWER_U, LOWER_L, LOWER_L); // null
    } else if c == LOWER_T {
      SkipThreeBytes(iter, LOWER_R, LOWER_U, LOWER_E); // true
    } else if c == LOWER_F {
      SkipFourBytes(iter, LOWER_A, LOWER_L, LOWER_S, LOWER_E); // false
    } else if c == ZERO {
      SkipZero(iter);
      if good {
        NumberOutcome(iter, j, old(iter.depth), old(iter.captureIntact));
      }
    } else if c == MINUS || IsDigit(c) {
      SkipNumber(iter);
      if good {
        NumberOutcome(iter, j, old(iter.depth), old(iter.captureIntact));
      }
    } else if c == OPEN_BRACKET {
      SkipArray(iter);
    } else if c == OPEN_BRACE {
      SkipObject(iter);
    } else {
      iter.UnreadByte();
      iter.ReportError();
    }
  }

  lemma SkippedIsNothing(s: seq<byte>, i: nat, depth: int, m: Mode)
    requires i <= |s| && m.visitor.Skipping?
    ensures var r := ValueAt(s, i, depth, m); r.Done? ==> r.value == Nothing
  {
    hide ArrayAt, ObjectAt;
  }

  // ---------- Read ----------

  datatype ValueType =
    InvalidValue | StringValue | NumberValue | NilValue | BoolValue | ArrayValue | ObjectValue

  /** An entry of `valueTypes` */
  function ValueTypeOf(c: byte): ValueType {
    if c == QUOTE then StringValue
    else if c == MINUS || IsDigit(c) then NumberValue
    else if c == LOWER_T || c == LOWER_F then BoolValue
    else if c == LOWER_N then NilValue
    else if c == OPEN_BRACKET then ArrayValue
    else if c == OPEN_BRACE then ObjectValue
    else InvalidValue
  }

  /** `WhatIsNext` */
  method WhatIsNext(iter: Iterator) returns (valueType: ValueType)
    requires iter.Valid()
    modifies iter, iter.buf
    ensures iter.Kept()
    ensures var j := SkipWhitespace(iter.input, old(iter.Pos()));
      if j < |iter.input|
      then valueType == ValueTypeOf(iter.input[j]) && iter.err == old(iter.err)
           && (iter.err == NoError ==> iter.Pos() == j)
      else valueType == InvalidValue && iter.err != NoError
  {
    hide iter.BufferValid, iter.ReaderValid, iter.CapturedTo;
    var c := iter.NextToken();
    valueType := ValueTypeOf(c);
    iter.UnreadByte();
  }

  /** `ReadBool` */
  method ReadBool(iter: Iterator) returns (ret: bool)
    requires iter.Valid()
    modifies iter, iter.buf
    ensures iter.Kept()
    ensures old(iter.err) == NoError ==>
      var j := SkipWhitespace(iter.input, old(iter.Pos()));
      if j < |iter.input| && iter.input[j] == LOWER_T && At(iter.input, j + 1, RUE)
      then ret && iter.err == NoError && iter.Pos() == j + 4
      else if j < |iter.input| && iter.input[j] == LOWER_F && At(iter.input, j + 1, ALSE)
      then !ret && iter.err == NoError && iter.Pos() == j + 5
      else iter.err == Other
  {
    hide iter.BufferValid, iter.ReaderValid, iter.CapturedTo, At;
    var c := iter.NextToken();
    if c == LOWER_T {
      SkipThreeBytes(iter, LOWER_R, LOWER_U, LOWER_E);
      return true;
    }
    if c == LOWER_F {
      SkipFourBytes(iter, LOWER_A, LOWER_L, LOWER_S, LOWER_E);
      return false;
    }
    iter.ReportError();
    return false;
  }

  /** A number that the end of the input cuts off is read all the same, and io.EOF is left behind. */
  ghost predicate CutNumberRead(iter: Iterator, j: nat, value: Value)
    reads iter
  {
    j < |iter.input| && StartsNumber(iter.input[j]) && NumberEnd(iter.input, j) == |iter.input| ==>
      if iter.Exhausted(NoError) == EOF then value == Number(iter.input[j..]) && iter.err == EOF else iter.err == Other
  }

  /** The number case of `Read`: its text. */
  method ReadNumberText(iter: Iterator) returns (value: Value)
    requires iter.Valid()
    modifies iter, iter.buf
    ensures iter.Kept()
    ensures old(iter.err) == NoError && old(iter.Pos()) < |iter.input| && StartsNumber(iter.input[old(iter.Pos())]) ==>
              && CallbackOutcome(iter, NumberValueAt(iter.input, old(iter.Pos()), ModeOf(iter, Reading)), value,
                                 old(iter.depth), old(iter.captureIntact))
              && CutNumberRead(iter, old(iter.Pos()), value)
  {
    hide iter.BufferValid, iter.ReaderValid, iter.CapturedTo;
    ghost var p := iter.Pos();
    var text := ReadNumberAsBytes(iter, []);
    value := Number(text);
    ghost var e := NumberEnd(iter.input, p);
    assert [] + iter.input[p..e] == iter.input[p..e];
    if p < |iter.input| && StartsNumber(iter.input[p]) {
      assert NumberEnd(iter.input, p) > p;
      if e == |iter.input| {
        CutNumberIsStuck(iter);
      }
    }
  }

  lemma CutNumberIsStuck(iter: Iterator)
    requires 0 <= iter.Pos() <= |iter.input| && NumberEnd(iter.input, iter.Pos()) == |iter.input|
    ensures Stuck(iter)
  {
    var p := iter.Pos();
    if p < |iter.input| {
      assert IsNumberChar(iter.input[p]);
      SkipWhitespaceUnique(iter.input, p, p);
    }
  }

  lemma NullIsNull(s: seq<byte>, j: nat)
    requires j < |s| && s[j] == LOWER_N
    ensures At(s, j, [LOWER_N, LOWER_U, LOWER_L, LOWER_L]) <==> At(s, j + 1, ULL)
  {
    assert [LOWER_N] + ULL == [LOWER_N, LOWER_U, LOWER_L, LOWER_L];
    AtConcat(s, j, [LOWER_N], ULL);
    AtByte(s, j, LOWER_N);
  }

  /**
   * `Read` with `UseNumber`. On any buffering it returns the value of `ValueAt` exactly where that is done, and
   * stops behind it with the depth restored.
   */
  method Read(iter: Iterator) returns (value: Value)
    requires iter.Valid() && iter.depth >= 0
    modifies iter, iter.buf
    ensures iter.Advanced() && iter.depth >= old(iter.depth)
    ensures old(iter.err) == NoError ==>
              CallbackOutcome(iter, ValueAt(iter.input, old(iter.Pos()), old(iter.depth), ModeOf(iter, Reading)), value,
                              old(iter.depth), old(iter.captureIntact))
    ensures old(iter.err) == NoError ==> CutNumberRead(iter, SkipWhitespace(iter.input, old(iter.Pos())), value)
    ensures SkipWhitespace(iter.input, old(iter.Pos())) == |iter.input| ==> iter.err == Other
    decreases |iter.input| - iter.Pos(), 3
  {
    hide iter.BufferValid, iter.ReaderValid, iter.CapturedTo, ValueFrom;
    var valueType := WhatIsNext(iter);
    ghost var j := SkipWhitespace(iter.input, old(iter.Pos()));
    if j < |iter.input| {
      SkipWhitespaceUnique(iter.input, j, j);
    }
    value := ReadFrom(iter, valueType, j);
  }

  /** The switch of `Read`; `j` is where the value starts. */
  method ReadFrom(iter: Iterator, valueType: ValueType, ghost j: nat) returns (value: Value)
    requires iter.Valid() && iter.depth >= 0 && j <= |iter.input|
    requires if j < |iter.input| then valueType == ValueTypeOf(iter.input[j]) && SkipWhitespace(iter.input, j) == j
             else valueType == InvalidValue
    requires iter.err == NoError ==> iter.Pos() == j < |iter.input|
    modifies iter, iter.buf
    ensures iter.Advanced() && iter.depth >= old(iter.depth)
    ensures old(iter.err) == NoError ==>
              CallbackOutcome(iter, ValueFrom(iter.input, j, old(iter.depth), ModeOf(iter, Reading)), value,
                              old(iter.depth), old(iter.captureIntact))
    ensures old(iter.err) == NoError ==> CutNumberRead(iter, j, value)
    ensures j == |iter.input| ==> iter.err == Other
    decreases |iter.input| - iter.Pos(), 2
  {
    hide iter.BufferValid, iter.ReaderValid, iter.CapturedTo, ArrayAt, ObjectAt, At, Decode, Stuck, NumberValueAt;
    match valueType {
      case StringValue =>
        var str := ReadString(iter);
        value := Str(str);
      case NumberValue =>
        value := ReadNumberText(iter);
      case NilValue =>
        NullIsNull(iter.input, j);
        SkipFourBytes(iter, LOWER_N, LOWER_U, LOWER_L, LOWER_L);
        value := Null;
      case BoolValue =>
        var b := ReadBool(iter);
        value := Bool(b);
      case ArrayValue =>
        var ret, arr := ReadArrayCB(iter, Reading);
        value := Arr(arr);
      case ObjectValue =>
        var ret, obj, fields := ReadObjectRawCB(iter, Reading);
        value := Obj(obj);
      case InvalidValue =>
        iter.ReportError();
        value := Null;
    }
  }
}

/** any.go: reading a value lazily, and the lookup of a path. */
module AnyReader {
  import opened Bytes
  import opened StringMachines
  import opened FloatMachines
  import opened IterCore
  import opened Literals
  import opened IterStr
  import opened ValueMachines
  import opened LookupMachines
  import opened PullReaders
  import opened NumberSkips
  import IterSkipStrict
  import opened Containers

  /** The results of `readAny`; a lazy one holds the text of its value. */
  datatype Any =
    | StringAny(val: seq<byte>)
    | NilAny
    | TrueAny
    | FalseAny
    | NumberLazyAny(buf: seq<byte>)
    | ObjectLazyAny(buf: seq<byte>)
    | ArrayLazyAny(buf: seq<byte>)
    | InvalidAny

  // ---------- Finding a field ----------

  /** What a search returned and left behind. */
  ghost predicate LookedUp(iter: Iterator, r: Scan<bool>, found: bool, depth: int)
    reads iter
  {
    match r
    case Done(f, next) => found == f && iter.Pos() == next && iter.err == NoError && iter.depth == depth
    case Fails => iter.err == Other || AtInputEnd(iter)
  }

  /** `FindField` where a field is found. */
  function FieldFound(s: seq<byte>, next: nat, key: seq<byte>, name: seq<byte>, depth: int, m: Mode): Scan<bool>
    requires next <= |s|
  {
    if key == name then Done(true, next)
    else
      match ValueAt(s, next, depth, m)
      case Done(_, e) => FindField(s, e, name, depth, m)
      case Fails => Fails
  }

  /** Where the loop of `findObjectField` stands. */
  ghost predicate FieldLoop(iter: Iterator, r: Scan<bool>, rs: RawString, name: seq<byte>, depth: int, m: Mode)
    reads iter, if rs.View? then {rs.buf} else {}
  {
    || (r.Fails? && iter.err == Other)
    || (&& iter.err == NoError && iter.depth == depth && 0 <= iter.Pos() <= |iter.input|
        && r == if rs.NilString? then Done(false, iter.Pos())
                else FieldFound(iter.input, iter.Pos(), KeyName(rs), name, depth, m))
  }

  /** `FindField` is the loop entered with the first field. */
  lemma FieldPulled(iter: Iterator, i: nat, rs: RawString, name: seq<byte>, depth: int, m: Mode)
    requires i <= |iter.input| && 0 <= iter.Pos() <= |iter.input| && iter.depth == depth
    requires PulledField(iter, FieldAt(iter.input, i), rs)
    ensures FieldLoop(iter, FindField(iter.input, i, name, depth, m), rs, name, depth, m)
  {
    hide FieldAt, ValueAt, KeyName;
  }

  /** The test of `findObjectField`: a name with escapes is decoded for it. */
  method KeyMatches(rs: RawString, target: seq<byte>) returns (keyMatches: bool)
    requires !rs.NilString? && rs.InBounds() && IsString(rs)
    ensures keyMatches == (KeyName(rs) == target)
  {
    hide Decode, RawEnd;
    if rs.hasEscapes {
      var str := RawToString(rs);
      return str == target;
    }
    ghost var text := rs.Content();
    assert text[0..|text|] == text && text[0..|text| - 1] == text[..|text| - 1];
    DecodePlain(text, 0);
    var raw, isRaw := rs.Bytes();
    return target == raw;
  }

  /** Behind a field of another name: its value is skipped, and the next field pulled. */
  method PassField(iter: Iterator, rs: RawString, name: seq<byte>, ghost r: Scan<bool>, ghost depth: int,
                   ghost clean: bool)
    returns (rs': RawString)
    requires iter.Valid() && iter.depth >= depth >= 0 && !rs.NilString?
    requires clean ==> FieldLoop(iter, r, rs, name, depth, ModeOf(iter, Skipping)) && KeyName(rs) != name
    modifies iter, iter.buf
    ensures iter.Advanced() && iter.depth >= depth && IsKey(rs', iter)
    ensures !rs'.NilString? ==> iter.Pos() > old(iter.Pos())
    ensures clean ==> FieldLoop(iter, r, rs', name, depth, ModeOf(iter, Skipping))
  {
    hide iter.BufferValid, iter.ReaderValid, iter.CapturedTo, FindField, ValueAt, KeyName, IsKey, FieldAt;
    Skip(iter);
    ghost var e, ok := iter.Pos(), iter.err == NoError;
    rs' := ReadObjectRaw(iter);
    if clean && old(iter.err) == NoError && ok {
      FieldPulled(iter, e, rs', name, depth, ModeOf(iter, Skipping));
    }
  }

  /** `findObjectField` */
  method FindObjectField(iter: Iterator, target: seq<byte>) returns (found: bool)
    requires iter.Valid() && iter.depth >= 0
    modifies iter, iter.buf
    ensures iter.Advanced() && iter.depth >= old(iter.depth)
    ensures old(Stuck(iter)) ==> !found
    ensures old(iter.err) == NoError ==>
              LookedUp(iter, FindField(iter.input, old(iter.Pos()), target, old(iter.depth), ModeOf(iter, Skipping)),
                       found, old(iter.depth))
  {
    hide iter.BufferValid, iter.ReaderValid, iter.CapturedTo, FindField, KeyName, FieldAt;
    ghost var clean, depth, m := iter.err == NoError, iter.depth, ModeOf(iter, Skipping);
    ghost var p := iter.Pos();
    ghost var r := FindField(iter.input, p, target, depth, m);
    var rs := ReadObjectRaw(iter);
    if clean {
      FieldPulled(iter, p, rs, target, depth, m);
    }
    while !rs.NilString?
      invariant iter.Advanced() && iter.depth >= depth && IsKey(rs, iter)
      invariant clean ==> FieldLoop(iter, r, rs, target, depth, m)
      invariant old(Stuck(iter)) ==> rs.NilString?
      decreases |iter.input| - iter.Pos(), !rs.NilString?
    {
      var keyMatches := KeyMatches(rs, target);
      if keyMatches {
        return true;
      }
      rs := PassField(iter, rs, target, r, depth, clean);
    }
    return false;
  }

  // ---------- Finding an element ----------

  /** `FindElement` where an element is found. */
  function ElementFound(s: seq<byte>, next: nat, n: nat, target: int, depth: int, m: Mode): Scan<bool>
    requires next <= |s|
  {
    if n == target then Done(true, next)
    else
      match ValueAt(s, next, depth, m)
      case Done(_, e) => FindElement(s, e, n + 1, target, depth, m)
      case Fails => Fails
  }

  /** Where the loop of `findArrayElement` stands. */
  ghost predicate ElementLoop(iter: Iterator, r: Scan<bool>, more: bool, n: nat, target: int, depth: int, m: Mode)
    reads iter
  {
    || (r.Fails? && (iter.err == Other || AtInputEnd(iter)))
    || (&& iter.err == NoError && iter.depth == depth && 0 <= iter.Pos() <= |iter.input|
        && r == if !more then Done(false, iter.Pos())
                else ElementFound(iter.input, iter.Pos(), n, target, depth, m))
  }

  ghost predicate PulledElement(iter: Iterator, r: Pull<()>, ret: bool)
    reads iter
  {
    match r
    case Found(_, next) => ret && iter.Pos() == next && iter.err == NoError
    case Ended(next) => !ret && iter.Pos() == next && iter.err == NoError
    case Broken => iter.err == Other || AtInputEnd(iter)
  }

  lemma ElementPulled(iter: Iterator, i: nat, ret: bool, n: nat, target: int, depth: int, m: Mode)
    requires i <= |iter.input| && 0 <= iter.Pos() <= |iter.input| && iter.depth == depth
    requires PulledElement(iter, ElementAt(iter.input, i), ret)
    ensures ElementLoop(iter, FindElement(iter.input, i, n, target, depth, m), ret, n, target, depth, m)
  {
    hide ElementAt, ValueAt;
  }

  /** Behind an element with another index. */
  method PassElement(iter: Iterator, n: nat, target: int, ghost r: Scan<bool>, ghost depth: int, ghost clean: bool)
    returns (more: bool)
    requires iter.Valid() && iter.depth >= depth >= 0
    requires clean ==> ElementLoop(iter, r, true, n, target, depth, ModeOf(iter, Skipping)) && n != target
    modifies iter, iter.buf
    ensures iter.Advanced() && iter.depth >= depth
    ensures more ==> iter.Pos() > old(iter.Pos())
    ensures clean ==> ElementLoop(iter, r, more, n + 1, target, depth, ModeOf(iter, Skipping))
  {
    hide iter.BufferValid, iter.ReaderValid, iter.CapturedTo, FindElement, ValueAt, ElementAt;
    Skip(iter);
    ghost var e, ok := iter.Pos(), iter.err == NoError;
    more := ReadArray(iter);
    if clean && old(iter.err) == NoError && ok {
      ElementPulled(iter, e, more, n + 1, target, depth, ModeOf(iter, Skipping));
    }
  }

  /** `findArrayElement` */
  method FindArrayElement(iter: Iterator, target: int) returns (found: bool)
    requires iter.Valid() && iter.depth >= 0
    modifies iter, iter.buf
    ensures iter.Advanced() && iter.depth >= old(iter.depth)
    ensures old(Stuck(iter)) ==> !found
    ensures old(iter.err) == NoError ==>
              LookedUp(
                iter, FindElement(iter.input, old(iter.Pos()), 0, target, old(iter.depth), ModeOf(iter, Skipping)),
                found, old(iter.depth))
  {
    hide iter.BufferValid, iter.ReaderValid, iter.CapturedTo, FindElement, ElementAt;
    ghost var clean, depth, m := iter.err == NoError, iter.depth, ModeOf(iter, Skipping);
    ghost var p := iter.Pos();
    ghost var r := FindElement(iter.input, p, 0, target, depth, m);
    var n := 0;
    var more := ReadArray(iter);
    if clean {
      ElementPulled(iter, p, more, 0, target, depth, m);
    }
    while more
      invariant iter.Advanced() && iter.depth >= depth && n >= 0
      invariant clean ==> ElementLoop(iter, r, more, n, target, depth, m)
      invariant old(Stuck(iter)) ==> !more
      decreases |iter.input| - iter.Pos(), more
    {
      if n == target {
        return true;
      }
      more := PassElement(iter, n, target, r, depth, clean);
      n := n + 1;
    }
    return false;
  }

  // ---------- Reading lazily ----------

  /** What `readAny` returned and left behind, when it began in front of position `i`. */
  ghost predicate ReadLazily(iter: Iterator, i: nat, any: Any, depth: int)
    requires i <= |iter.input|
    reads iter
  {
    var s := iter.input;
    var j := SkipWhitespace(s, i);
    if j == |s| then any == InvalidAny
    else if s[j] == QUOTE then
      match Decode(s, j + 1)
      case Ok(v, next) => any == StringAny(v) && iter.err == NoError && iter.Pos() == next
      case Bad => iter.err == Other
    else if s[j] == LOWER_N then any == NilAny && LiteralRead(iter, j + 1, ULL)
    else if s[j] == LOWER_T then any == TrueAny && LiteralRead(iter, j + 1, RUE)
    else if s[j] == LOWER_F then any == FalseAny && LiteralRead(iter, j + 1, ALSE)
    else if s[j] == OPEN_BRACE then
      var r := ObjectAt(s, j, depth, ModeOf(iter, Skipping));
      AnyOutcomeAt(iter, r, depth) && (r.Done? && j <= r.next <= |s| ==> any == ObjectLazyAny(s[j..r.next]))
    else if s[j] == OPEN_BRACKET then
      var r := ArrayAt(s, j, depth, ModeOf(iter, Skipping));
      AnyOutcomeAt(iter, r, depth) && (r.Done? && j <= r.next <= |s| ==> any == ArrayLazyAny(s[j..r.next]))
    else if s[j] == 0 then any == InvalidAny
    else LazyNumber(iter, j, any)
  }

  ghost predicate AnyOutcomeAt<T>(iter: Iterator, r: Scan<T>, depth: int)
    reads iter
  {
    match r
    case Done(_, next) => iter.Pos() == next && iter.err == NoError && iter.depth == depth
    case Fails => iter.err == Other
  }

  ghost predicate LiteralRead(iter: Iterator, i: nat, rest: seq<byte>)
    reads iter
  {
    if At(iter.input, i, rest) then iter.err == NoError && iter.Pos() == i + |rest| else iter.err == Other
  }

  /** A number is kept as its text, in a flat buffer also one that ends the input. */
  ghost predicate LazyNumber(iter: Iterator, j: nat, any: Any)
    requires j < |iter.input|
    reads iter
  {
    && any.NumberLazyAny?
    && match SkippedNumber(iter.input, j, BufferEnd(iter.input, iter.chunks, j), iter.parsers)
       case Stops(e) =>
         j <= e <= |iter.input| && any.buf == iter.input[j..e] && iter.Pos() == e && iter.err == NoError
       case Ends =>
         && iter.err != NoError
         && (!iter.fromReader ==> any.buf == iter.input[j..] && iter.Pos() == |iter.input| && iter.err == EOF)
       case Refused => iter.err != NoError && (!iter.fromReader ==> iter.err == Other)
  }

  /** `readNumberAny` */
  method ReadNumberAny(iter: Iterator) returns (any: Any)
    requires iter.Valid() && iter.captured.None? && iter.head > 0 && !IsWhitespace(iter.input[iter.Pos() - 1])
    modifies iter, iter.buf
    ensures iter.Valid() && iter.captured.None?
    ensures old(iter.err) == NoError ==> LazyNumber(iter, old(iter.Pos()) - 1, any)
  {
    hide iter.BufferValid, iter.ReaderValid, iter.CapturedTo, SkippedNumber, BufferEnd, NumberEnd;
    ghost var j := iter.Pos() - 1;
    iter.StartCaptureTo([], iter.head - 1);
    IterSkipStrict.SkipNumber(iter);
    iter.FlatIsIntact();
    var lazyBuf := iter.StopCapture();
    any := NumberLazyAny(lazyBuf);
    if iter.captureIntact {
      assert [] + iter.input[j..iter.Pos()] == iter.input[j..iter.Pos()];
    }
  }

  /** `readObjectAny` */
  method ReadObjectAny(iter: Iterator) returns (any: Any)
    requires iter.Valid() && iter.captured.None? && iter.head > 0 && iter.depth >= 0
    modifies iter, iter.buf
    ensures iter.Valid() && iter.captured.None?
    ensures old(iter.err) == NoError ==>
              var j := old(iter.Pos()) - 1;
              var r := ObjectAt(iter.input, j, old(iter.depth), ModeOf(iter, Skipping));
              AnyOutcomeAt(iter, r, old(iter.depth)) &&
              (r.Done? ==> j <= r.next <= |iter.input| && any == ObjectLazyAny(iter.input[j..r.next]))
  {
    hide iter.BufferValid, iter.ReaderValid, iter.CapturedTo, ObjectAt;
    ghost var j := iter.Pos() - 1;
    iter.StartCaptureTo([], iter.head - 1);
    Containers.SkipObject(iter);
    var lazyBuf := iter.StopCapture();
    any := ObjectLazyAny(lazyBuf);
    if iter.captureIntact {
      assert [] + iter.input[j..iter.Pos()] == iter.input[j..iter.Pos()];
    }
  }

  /** `readArrayAny` */
  method ReadArrayAny(iter: Iterator) returns (any: Any)
    requires iter.Valid() && iter.captured.None? && iter.head > 0 && iter.depth >= 0
    modifies iter, iter.buf
    ensures iter.Valid() && iter.captured.None?
    ensures old(iter.err) == NoError ==>
              var j := old(iter.Pos()) - 1;
              var r := ArrayAt(iter.input, j, old(iter.depth), ModeOf(iter, Skipping));
              AnyOutcomeAt(iter, r, old(iter.depth)) &&
              (r.Done? ==> j <= r.next <= |iter.input| && any == ArrayLazyAny(iter.input[j..r.next]))
  {
    hide iter.BufferValid, iter.ReaderValid, iter.CapturedTo, ArrayAt;
    ghost var j := iter.Pos() - 1;
    iter.StartCaptureTo([], iter.head - 1);
    Containers.SkipArray(iter);
    var lazyBuf := iter.StopCapture();
    any := ArrayLazyAny(lazyBuf);
    if iter.captureIntact {
      assert [] + iter.input[j..iter.Pos()] == iter.input[j..iter.Pos()];
    }
  }

  /** `readAny` */
  method ReadAny(iter: Iterator) returns (any: Any)
    requires iter.Valid() && iter.captured.None? && iter.depth >= 0
    modifies iter, iter.buf
    ensures iter.Valid()
    ensures SkipWhitespace(iter.input, old(iter.Pos())) == |iter.input| ==> any == InvalidAny
    ensures old(iter.err) == NoError ==> ReadLazily(iter, old(iter.Pos()), any, old(iter.depth))
  {
    hide iter.BufferValid, iter.ReaderValid, iter.CapturedTo, ObjectAt, ArrayAt, LazyNumber, Decode, At;
    ghost var i := iter.Pos();
    var c := iter.NextToken();
    if c == QUOTE {
      iter.UnreadByte();
      StringTokenHere(iter.input, iter.Pos());
      var str := ReadString(iter);
      any := StringAny(str);
    } else if c == LOWER_N {
      SkipThreeBytes(iter, LOWER_U, LOWER_L, LOWER_L); // null
      any := NilAny;
    } else if c == LOWER_T {
      SkipThreeBytes(iter, LOWER_R, LOWER_U, LOWER_E); // true
      any := TrueAny;
    } else if c == LOWER_F {
      SkipFourBytes(iter, LOWER_A, LOWER_L, LOWER_S, LOWER_E); // false
      any := FalseAny;
    } else if c == OPEN_BRACE {
      any := ReadObjectAny(iter);
    } else if c == OPEN_BRACKET {
      any := ReadArrayAny(iter);
    } else if c == 0 {
      any := InvalidAny;
    } else {
      any := ReadNumberAny(iter);
    }
  }

  lemma StringTokenHere(s: seq<byte>, j: nat)
    ensures j < |s| && s[j] == QUOTE ==> StringToken(s, j) == Decode(s, j + 1)
  {
    hide Decode;
  }

  // ---------- Paths ----------

  /** One step of `locatePath`; a step that is no string and no int is not found. */
  method FindPathStep(iter: Iterator, step: Step) returns (found: bool)
    requires iter.Valid() && iter.depth >= 0
    modifies iter, iter.buf
    ensures iter.Advanced() && iter.depth >= old(iter.depth)
    ensures old(Stuck(iter)) ==> !found
    ensures old(iter.err) == NoError ==>
              LookedUp(iter, FindStep(iter.input, old(iter.Pos()), step, old(iter.depth), ModeOf(iter, Skipping)),
                       found, old(iter.depth))
  {
    hide iter.BufferValid, iter.ReaderValid, iter.CapturedTo, FindField, FindElement;
    match step {
      case Key(name) => found := FindObjectField(iter, name);
      case Index(n) => found := FindArrayElement(iter, n);
      case OtherStep => found := false;
    }
  }

  /** Where the loop of `locatePath` stands with `rest` of the path to go. */
  ghost predicate PathLoop(iter: Iterator, r: Scan<bool>, rest: seq<Step>, depth: int)
    reads iter
  {
    || (r.Fails? && (iter.err == Other || AtInputEnd(iter)))
    || (&& iter.err == NoError && iter.depth == depth && 0 <= iter.Pos() <= |iter.input|
        && r == Locate(iter.input, iter.Pos(), rest, depth, ModeOf(iter, Skipping)))
  }

  lemma StepTaken(iter: Iterator, p: nat, rest: seq<Step>, depth: int, found: bool)
    requires p <= |iter.input| && 0 <= iter.Pos() <= |iter.input| && rest != []
    requires LookedUp(iter, FindStep(iter.input, p, rest[0], depth, ModeOf(iter, Skipping)), found, depth)
    ensures var r := Locate(iter.input, p, rest, depth, ModeOf(iter, Skipping));
      && (found ==> PathLoop(iter, r, rest[1..], depth))
      && (!found ==> r.Fails? || (r.Done? && !r.value))
  {
    hide FindStep;
  }

  /**
   * `locatePath`: the value `Locate` finds, read lazily, or the invalid value where the path is missing or the
   * text is malformed on the way.
   */
  method LocatePath(iter: Iterator, path: seq<Step>) returns (any: Any)
    requires iter.Valid() && iter.captured.None? && iter.depth >= 0 && iter.err == NoError
    modifies iter, iter.buf
    ensures iter.Valid()
    ensures match Locate(iter.input, old(iter.Pos()), path, old(iter.depth), ModeOf(iter, Skipping))
      case Done(found, next) =>
        if found then next <= |iter.input| && ReadLazily(iter, next, any, old(iter.depth)) else any == InvalidAny
      case Fails => any == InvalidAny
  {
    hide iter.BufferValid, iter.ReaderValid, iter.CapturedTo, Locate, ReadLazily, FindStep;
    ghost var depth := iter.depth;
    ghost var r := Locate(iter.input, iter.Pos(), path, depth, ModeOf(iter, Skipping));
    assert path[0..] == path;
    var i := 0;
    while i < |path|
      invariant 0 <= i <= |path|
      invariant iter.Advanced() && iter.depth >= depth
      invariant PathLoop(iter, r, path[i..], depth)
    {
      ghost var p, clean := iter.Pos(), iter.err == NoError;
      var found := FindPathStep(iter, path[i]);
      if clean {
        StepTaken(iter, p, path[i..], depth, found);
        assert path[i..][1..] == path[i + 1..];
      }
      if !found {
        return InvalidAny;
      }
      i := i + 1;
    }
    assert path[i..] == [];
    PathEnds(iter, r, depth);
    if iter.err != NoError && iter.err != EOF {
      return InvalidAny;
    }
    any := ReadAny(iter);
  }

  /** Where the path ends: in front of what it leads to, or at the end of the input, or behind an error. */
  lemma PathEnds(iter: Iterator, r: Scan<bool>, depth: int)
    requires PathLoop(iter, r, [], depth)
    ensures iter.err == Other ==> r.Fails?
    ensures iter.err != Other ==> r == Done(true, iter.Pos()) || (r.Fails? && AtInputEnd(iter))
    ensures r.Done? ==> iter.err == NoError && iter.depth == depth && 0 <= iter.Pos() <= |iter.input|
  {
    if iter.err == NoError && 0 <= iter.Pos() <= |iter.input| {
      LocateNothing(iter.input, iter.Pos(), depth, ModeOf(iter, Skipping));
    }
  }

  lemma LocateNothing(s: seq<byte>, i: nat, depth: int, m: Mode)
    requires i <= |s|
    ensures Locate(s, i, [], depth, m) == Done(true, i)
  {
  }
}

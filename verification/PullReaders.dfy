/** iter_object.go, iter_array.go: `ReadObjectRaw` and `ReadArray`, which give one field or element a call. */
module PullReaders {
  import opened Bytes
  import opened StringMachines
  import opened IterCore
  import opened Literals
  import opened IterStr
  import opened ValueMachines
  import opened LookupMachines
  import opened Containers

  /** What `ReadObjectRaw` returned and left behind. */
  ghost predicate PulledField(iter: Iterator, r: Pull<seq<byte>>, rs: RawString)
    reads iter, if rs.View? then {rs.buf} else {}
  {
    match r
    case Found(key, next) => !rs.NilString? && KeyName(rs) == key && iter.Pos() == next && iter.err == NoError
    case Ended(next) => rs.NilString? && iter.Pos() == next && iter.err == NoError
    case Broken => iter.err == Other
  }

  /** The colon behind a name. */
  method ReadColon(iter: Iterator, rs: RawString) returns (rs': RawString)
    requires iter.Valid() && IsKey(rs, iter)
    modifies iter, iter.buf
    ensures iter.Kept()
    ensures IsKey(rs', iter) && KeyName(rs') == old(KeyName(rs)) && rs'.NilString? == rs.NilString?
    ensures old(iter.err) == Other ==> iter.err == Other
    ensures old(iter.err) == NoError ==>
              match ColonAt(iter.input, old(iter.Pos()), old(KeyName(rs)))
              case Found(_, next) => iter.Pos() == next && iter.err == NoError
              case _ => iter.err == Other
  {
    hide iter.BufferValid, iter.ReaderValid, iter.CapturedTo, IsKey, KeyName;
    var c;
    rs', c := TokenAfterKey(iter, rs);
    if c != COLON {
      iter.UnreadByte();
      iter.ReportError();
    }
  }

  lemma HeldIsNotNil(rs: RawString, iter: Iterator, p: nat, end: nat)
    requires Holds(rs, iter, p, end)
    ensures !rs.NilString?
  {
  }

  /** The case of `ReadObjectRaw` for `{`. */
  method ReadFirstField(iter: Iterator) returns (rs: RawString)
    requires iter.Valid()
    modifies iter, iter.buf
    ensures iter.Kept() && IsKey(rs, iter)
    ensures old(iter.err) != NoError ==> rs.NilString?
    ensures old(iter.err) == NoError ==> PulledField(iter, FirstFieldAt(iter.input, old(iter.Pos())), rs)
  {
    hide iter.BufferValid, iter.ReaderValid, iter.CapturedTo, IsKey, KeyName, Decode, RawEnd, Holds;
    NilKey(NilString, iter);
    var c := iter.NextToken();
    if c == QUOTE {
      ghost var p := iter.Pos();
      rs := ReadRawStringInner(iter);
      FirstKey(iter, p, rs, old(iter.err) == NoError);
      if iter.err == NoError {
        HeldIsNotNil(rs, iter, p, iter.Pos());
      }
      rs := ReadColon(iter, rs);
      return;
    }
    if c == CLOSE_BRACE {
      NilKey(NilString, iter);
      return NilString;
    }
    iter.ReportError();
    NilKey(NilString, iter);
    return NilString;
  }

  /** The case of `ReadObjectRaw` for a comma. */
  method ReadNextField(iter: Iterator) returns (rs: RawString)
    requires iter.Valid()
    modifies iter, iter.buf
    ensures iter.Kept() && IsKey(rs, iter)
    ensures old(iter.err) != NoError ==> rs.NilString?
    ensures old(iter.err) == NoError ==> PulledField(iter, NextFieldAt(iter.input, old(iter.Pos())), rs)
  {
    hide iter.BufferValid, iter.ReaderValid, iter.CapturedTo, IsKey, KeyName, Decode, RawEnd, Holds, RawTokenAt;
    ghost var p := iter.Pos();
    rs := ReadRawString(iter);
    NextKey(iter, p, rs, old(iter.err) == NoError);
    if iter.err == NoError && RawTokenAt(iter.input, p).RawText? {
      HeldIsNotNil(rs, iter, RawTokenAt(iter.input, p).from, iter.Pos());
    }
    rs := ReadColon(iter, rs);
  }

  /** `ReadObjectRaw` */
  method ReadObjectRaw(iter: Iterator) returns (rs: RawString)
    requires iter.Valid()
    modifies iter, iter.buf
    ensures iter.Kept() && IsKey(rs, iter)
    ensures !rs.NilString? ==> old(iter.err) == NoError && iter.Pos() > old(iter.Pos())
    ensures old(Stuck(iter)) ==> rs.NilString? && iter.err == Other
    ensures old(iter.err) == NoError ==> PulledField(iter, FieldAt(iter.input, old(iter.Pos())), rs)
  {
    hide iter.BufferValid, iter.ReaderValid, iter.CapturedTo, IsKey, KeyName, FirstFieldAt, NextFieldAt, At,
         SkipWhitespace, IsWhitespace;
    var c := iter.NextToken();
    rs := NilString;
    if c == LOWER_N {
      SkipThreeBytes(iter, LOWER_U, LOWER_L, LOWER_L); // null
    } else if c == OPEN_BRACE {
      rs := ReadFirstField(iter);
      return;
    } else if c == COMMA {
      rs := ReadNextField(iter);
      return;
    } else if c != CLOSE_BRACE {
      iter.UnreadByte();
      iter.ReportError();
    }
    NilKey(rs, iter);
  }

  /** `ReadArray` */
  method ReadArray(iter: Iterator) returns (ret: bool)
    requires iter.Valid()
    modifies iter, iter.buf
    ensures iter.Kept()
    ensures ret ==> iter.Pos() > old(iter.Pos())
    ensures old(Stuck(iter)) ==> !ret && iter.err == Other
    ensures old(iter.err) == NoError ==>
              match ElementAt(iter.input, old(iter.Pos()))
              case Found(_, next) => ret && iter.Pos() == next && iter.err == NoError
              case Ended(next) => !ret && iter.Pos() == next && iter.err == NoError
              case Broken => iter.err == Other || AtInputEnd(iter)
  {
    hide iter.BufferValid, iter.ReaderValid, iter.CapturedTo, At, SkipWhitespace, IsWhitespace;
    var c := iter.NextToken();
    if c == LOWER_N {
      SkipThreeBytes(iter, LOWER_U, LOWER_L, LOWER_L);
      return false; // null
    }
    if c == OPEN_BRACKET {
      c := iter.NextToken();
      if c != CLOSE_BRACKET {
        iter.UnreadByte();
        return true;
      }
      return false;
    }
    if c == CLOSE_BRACKET {
      return false;
    }
    if c == COMMA {
      return true;
    }
    iter.UnreadByte();
    iter.ReportError();
    return false;
  }
}

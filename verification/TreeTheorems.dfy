/** A written tree is a well-formed document, and reading it gives the tree back. */
module TreeTheorems {
  import opened Bytes
  import opened StringMachines
  import opened FloatMachines
  import opened StreamStr
  import opened StreamWrite
  import opened IterCore
  import opened ValueMachines
  import opened Grammar
  import opened DocTheorems
  import opened Trees

  // ---------- Trees that have a text, and the values that stand for them ----------

  /** Every number is a number text. */
  predicate IsWritable(t: Tree) {
    match t
    case TNumber(text) => IsNumberText(text)
    case TArray(items) => AreWritable(items)
    case TObject(fields) => FieldsAreWritable(fields)
    case _ => true
  }

  predicate AreWritable(items: TreeList) {
    items.Trees? ==> IsWritable(items.first) && AreWritable(items.rest)
  }

  predicate FieldsAreWritable(fields: TreeFields) {
    fields.Fields? ==> IsWritable(fields.first) && FieldsAreWritable(fields.rest)
  }

  function Names(fields: TreeFields): set<seq<byte>> {
    if fields.NoFields? then {} else {fields.name} + Names(fields.rest)
  }

  /** No object has two fields of the same name. */
  predicate HasUniqueNames(t: Tree) {
    match t
    case TArray(items) => HaveUniqueNames(items)
    case TObject(fields) => AreUniqueNames(fields)
    case _ => true
  }

  predicate HaveUniqueNames(items: TreeList) {
    items.Trees? ==> HasUniqueNames(items.first) && HaveUniqueNames(items.rest)
  }

  predicate AreUniqueNames(fields: TreeFields) {
    fields.Fields? ==>
      HasUniqueNames(fields.first) && fields.name !in Names(fields.rest) && AreUniqueNames(fields.rest)
  }

  function Height(t: Tree): nat {
    match t
    case TArray(items) => 1 + ListHeight(items)
    case TObject(fields) => 1 + FieldsHeight(fields)
    case _ => 0
  }

  function ListHeight(items: TreeList): nat {
    if items.NoTrees? then 0 else Max(Height(items.first), ListHeight(items.rest))
  }

  function FieldsHeight(fields: TreeFields): nat {
    if fields.NoFields? then 0 else Max(Height(fields.first), FieldsHeight(fields.rest))
  }

  /**
   * `v` is the tree `t`: the same strings and number texts, elements in order, each field under its name and no
   * others.
   */
  predicate Represents(v: Value, t: Tree)
    decreases t
  {
    match t
    case TNull => v == Null
    case TBool(b) => v == Bool(b)
    case TNumber(text) => v == Number(text)
    case TString(bytes) => v == Str(bytes)
    case TArray(items) => v.Arr? && ListRepresents(v.items, items)
    case TObject(fields) => v.Obj? && v.fields.Keys == Names(fields) && FieldsRepresent(v.fields, fields)
  }

  predicate ListRepresents(vs: seq<Value>, items: TreeList)
    decreases items
  {
    if items.NoTrees? then vs == []
    else vs != [] && Represents(vs[0], items.first) && ListRepresents(vs[1..], items.rest)
  }

  predicate FieldsRepresent(m: map<seq<byte>, Value>, fields: TreeFields)
    decreases fields
  {
    fields.Fields? ==>
      && fields.name in m && Represents(m[fields.name], fields.first)
      && FieldsRepresent(m, fields.rest)
  }

  // ---------- Well-formed ----------

  /** What `WriteString` puts between the quotes is a string body that stands for the string. */
  lemma EscapedIsBody(s: seq<byte>)
    ensures IsStringBody(EscapeAll(s)) && StringOf(EscapeAll(s)) == s
  {
    hide Decode, RawEnd, EscapeAll;
    var t := EscapeAll(s) + [QUOTE];
    assert t[0..0 + |t|] == t;
    StringRoundTrip(s, t, 0);
    RawEndIffDecode(t, 0);
  }

  lemma IndentIsSpace(indention: int, delta: int)
    ensures IsSpace(Indent(indention, delta))
  {
  }

  lemma EmptySpaceIsSpace(indention: int, l: Layout)
    ensures IsSpace(EmptySpace(indention, l))
  {
    hide Indent;
    IndentIsSpace(indention, 0);
    IndentIsSpace(indention, l.step);
  }

  lemma {:induction false} WrittenIsWellFormed(t: Tree, indention: int, l: Layout)
    requires IsWritable(t)
    ensures WellFormed(DocOf(t, indention, l)) && Nesting(DocOf(t, indention, l)) == Height(t)
    decreases t, 1
  {
    hide IsStringBody, IsNumberText, IsSpace, EmptySpace, EscapeAll;
    match t {
      case TString(bytes) => EscapedIsBody(bytes);
      case TArray(items) =>
        if items.NoTrees? {
          EmptySpaceIsSpace(indention + l.step, l);
        } else {
          ItemsAreWellFormed(items, indention + l.step, l);
        }
      case TObject(fields) =>
        if fields.NoFields? {
          EmptySpaceIsSpace(indention + l.step, l);
        } else {
          MembersAreWellFormed(fields, indention + l.step, l);
        }
      case _ =>
    }
  }

  lemma {:induction false} ItemsAreWellFormed(items: TreeList, indention: int, l: Layout)
    requires items.Trees? && AreWritable(items)
    ensures WellFormedItems(ItemsOf(items, indention, l))
    ensures ItemsNesting(ItemsOf(items, indention, l)) == ListHeight(items)
    decreases items, 0
  {
    hide Indent, DocOf, WellFormed, Nesting, Height;
    IndentIsSpace(indention, 0);
    IndentIsSpace(indention, l.step);
    WrittenIsWellFormed(items.first, indention, l);
    if items.rest.Trees? {
      ItemsAreWellFormed(items.rest, indention, l);
    }
  }

  lemma {:induction false} MembersAreWellFormed(fields: TreeFields, indention: int, l: Layout)
    requires fields.Fields? && FieldsAreWritable(fields)
    ensures WellFormedMembers(MembersOf(fields, indention, l))
    ensures MembersNesting(MembersOf(fields, indention, l)) == FieldsHeight(fields)
    decreases fields, 0
  {
    hide Indent, DocOf, WellFormed, Nesting, Height, IsStringBody, EscapeAll;
    IndentIsSpace(indention, 0);
    IndentIsSpace(indention, l.step);
    EscapedIsBody(fields.name);
    WrittenIsWellFormed(fields.first, indention, l);
    if fields.rest.Fields? {
      MembersAreWellFormed(fields.rest, indention, l);
    }
  }

  // ---------- The value of a written tree ----------

  lemma {:induction false} WrittenRepresents(t: Tree, indention: int, l: Layout, m: Mode)
    requires m.visitor.Reading? && HasUniqueNames(t)
    ensures Represents(ValueOf(DocOf(t, indention, l), m), t)
    decreases t, 1
  {
    hide StringOf, EscapeAll, EmptySpace, Names;
    match t {
      case TString(bytes) => EscapedIsBody(bytes);
      case TArray(items) =>
        if items.Trees? {
          ItemsRepresent(items, indention + l.step, l, m);
        }
      case TObject(fields) =>
        if fields.Fields? {
          MembersRepresent(fields, indention + l.step, l, m);
        } else {
          NoNames(fields);
        }
      case _ =>
    }
  }

  lemma NoNames(fields: TreeFields)
    requires fields.NoFields?
    ensures Names(fields) == {}
  {
  }

  lemma {:induction false} ItemsRepresent(items: TreeList, indention: int, l: Layout, m: Mode)
    requires m.visitor.Reading? && items.Trees? && HaveUniqueNames(items)
    ensures ListRepresents(ItemValues(ItemsOf(items, indention, l), m), items)
    decreases items, 0
  {
    hide Indent, DocOf, ValueOf, Represents;
    WrittenRepresents(items.first, indention, l, m);
    if items.rest.Trees? {
      ItemsRepresent(items.rest, indention, l, m);
      var vs := ItemValues(ItemsOf(items, indention, l), m);
      assert vs[1..] == ItemValues(ItemsOf(items.rest, indention, l), m);
    }
  }

  lemma {:induction false} MembersRepresent(fields: TreeFields, indention: int, l: Layout, m: Mode)
    requires m.visitor.Reading? && fields.Fields? && AreUniqueNames(fields)
    ensures var fm := FieldMap(FieldsOf(MembersOf(fields, indention, l), m));
      fm.Keys == Names(fields) && FieldsRepresent(fm, fields)
    decreases fields, 0
  {
    hide Indent, DocOf, ValueOf, Represents, StringOf, EscapeAll, FieldMap;
    WrittenRepresents(fields.first, indention, l, m);
    EscapedIsBody(fields.name);
    var v := ValueOf(DocOf(fields.first, indention, l), m);
    var all := FieldsOf(MembersOf(fields, indention, l), m);
    assert all[0] == (fields.name, v);
    FieldMapFirst(all);
    if fields.rest.Fields? {
      MembersRepresent(fields.rest, indention, l, m);
      assert all[1..] == FieldsOf(MembersOf(fields.rest, indention, l), m);
      SameFields(FieldMap(all[1..]), FieldMap(all), fields.rest);
    } else {
      assert all[1..] == [];
      FieldMapEmpty();
    }
  }

  lemma FieldMapEmpty()
    ensures FieldMap([]) == map[]
  {
  }

  lemma FieldMapFirst(fields: seq<Field>)
    requires fields != []
    ensures var rest := FieldMap(fields[1..]);
      && FieldMap(fields).Keys == {fields[0].0} + rest.Keys
      && (forall k :: k in rest ==> FieldMap(fields)[k] == rest[k])
      && (fields[0].0 !in rest ==> FieldMap(fields)[fields[0].0] == fields[0].1)
  {
  }

  /** Fields stand in a map as long as their names keep their values. */
  lemma {:induction false} SameFields(m: map<seq<byte>, Value>, m': map<seq<byte>, Value>, fields: TreeFields)
    requires FieldsRepresent(m, fields) && forall k :: k in m ==> k in m' && m'[k] == m[k]
    ensures FieldsRepresent(m', fields)
  {
    hide Represents;
    if fields.Fields? {
      SameFields(m, m', fields.rest);
    }
  }

  // ---------- The round trip ----------

  /**
   * A tree written at any indention, wherever it stands in a text: reading it gives the same tree and ends
   * just behind it.
   */
  lemma DocumentRoundTrip(t: Tree, indention: int, l: Layout, s: seq<byte>, j: nat, depth: int, m: Mode)
    requires IsWritable(t) && HasUniqueNames(t) && depth + Height(t) <= MAX_DEPTH && m.visitor.Reading?
    requires At(s, j, Text(DocOf(t, indention, l)))
    requires var e := j + |Text(DocOf(t, indention, l))|; t.TNumber? ==> e < |s| && IsDelimiter(s[e])
    ensures j < |s|
    ensures var r := ValueFrom(s, j, depth, m);
      r.Done? && Represents(r.value, t) && r.next == j + |Text(DocOf(t, indention, l))|
  {
    hide At, Text, ValueOf, ValueFrom, WellFormed, Nesting, Represents, IsSkippable, Height;
    var d := DocOf(t, indention, l);
    WrittenIsWellFormed(t, indention, l);
    WrittenRepresents(t, indention, l, m);
    EverythingIsReadable(d, m);
    ValueThere(d, s, j, depth, m);
  }

  /** A reading visitor keeps numbers as text, so it takes every number. */
  lemma {:induction false} EverythingIsReadable(d: Doc, m: Mode)
    requires m.visitor.Reading?
    ensures IsSkippable(d, m)
    decreases d, 1
  {
    match d {
      case DArray(items) => ItemsAreReadable(items, m);
      case DObject(members) => MembersAreReadable(members, m);
      case _ =>
    }
  }

  lemma {:induction false} ItemsAreReadable(items: Items, m: Mode)
    requires m.visitor.Reading?
    ensures AreSkippableItems(items, m)
    decreases items, 0
  {
    EverythingIsReadable(items.value, m);
    if items.Item? {
      ItemsAreReadable(items.rest, m);
    }
  }

  lemma {:induction false} MembersAreReadable(members: Grammar.Members, m: Mode)
    requires m.visitor.Reading?
    ensures AreSkippableMembers(members, m)
    decreases members, 0
  {
    EverythingIsReadable(members.value, m);
    if members.Member? {
      MembersAreReadable(members.rest, m);
    }
  }
}

/** JSON trees, written with the calls of stream.go at any indention, and read back. */
module Trees {
  import opened Bytes
  import opened StringMachines
  import opened StreamCore
  import opened StreamStr
  import opened StreamWrite
  import opened IterCore
  import opened ValueMachines
  import opened Grammar
  import opened DocTheorems

  /** A value to write: strings are any bytes, numbers are texts. */
  datatype Tree =
    | TNull
    | TBool(b: bool)
    | TNumber(text: seq<byte>)
    | TString(bytes: seq<byte>)
    | TArray(items: TreeList)
    | TObject(fields: TreeFields)

  datatype TreeList = NoTrees | Trees(first: Tree, rest: TreeList)

  datatype TreeFields = NoFields | Fields(name: seq<byte>, first: Tree, rest: TreeFields)

  /** How a document is laid out; `compact` has empty containers written by `WriteEmptyArray` and `WriteEmptyObject`. */
  datatype Layout = Layout(step: nat, compact: bool)

  // ---------- The document a tree is written as ----------

  function DocOf(t: Tree, indention: int, l: Layout): Doc {
    match t
    case TNull => DNull
    case TBool(b) => if b then DTrue else DFalse
    case TNumber(text) => DNumber(text)
    case TString(bytes) => DString(EscapeAll(bytes))
    case TArray(items) =>
      if items.NoTrees? then DEmptyArray(EmptySpace(indention + l.step, l))
      else DArray(ItemsOf(items, indention + l.step, l))
    case TObject(fields) =>
      if fields.NoFields? then DEmptyObject(EmptySpace(indention + l.step, l))
      else DObject(MembersOf(fields, indention + l.step, l))
  }

  function EmptySpace(indention: int, l: Layout): seq<byte> {
    if l.compact then [] else Indent(indention, 0) + Indent(indention, l.step)
  }

  function ItemsOf(items: TreeList, indention: int, l: Layout): Items
    requires items.Trees?
  {
    var before := Indent(indention, 0);
    var value := DocOf(items.first, indention, l);
    if items.rest.NoTrees? then LastItem(before, value, Indent(indention, l.step))
    else Item(before, value, [], ItemsOf(items.rest, indention, l))
  }

  function MembersOf(fields: TreeFields, indention: int, l: Layout): Grammar.Members
    requires fields.Fields?
  {
    var before, name := Indent(indention, 0), Body(EscapeAll(fields.name));
    var middle := if indention > 0 then [SPACE] else [];
    var value := DocOf(fields.first, indention, l);
    if fields.rest.NoFields? then LastMember(before, name, [], middle, value, Indent(indention, l.step))
    else Member(before, name, [], middle, value, [], MembersOf(fields.rest, indention, l))
  }

  // ---------- Writing ----------

  /** Writes a tree as the encoders of slices, maps and structs do: start, fields or elements with `WriteMore`, end. */
  method WriteTree(stream: Stream, t: Tree, compact: bool)
    modifies stream
    ensures stream.indention == old(stream.indention)
    ensures stream.buf ==
            old(stream.buf) + Text(DocOf(t, stream.indention, Layout(stream.indentionStep, compact)))
    decreases t, 1
  {
    match t {
      case TNull => WriteNil(stream);
      case TBool(b) => WriteBool(stream, b);
      case TNumber(text) => stream.WriteRaw(text);
      case TString(bytes) =>
        WriteString(stream, bytes);
        QuotedText(old(stream.buf), EscapeAll(bytes));
      case TArray(items) => WriteArray(stream, items, compact);
      case TObject(fields) => WriteObject(stream, fields, compact);
    }
  }

  lemma QuotedText(buf: seq<byte>, body: seq<byte>)
    ensures buf + [QUOTE] + body + [QUOTE] == buf + Quoted(body)
  {
  }

  method WriteArray(stream: Stream, items: TreeList, compact: bool)
    modifies stream
    ensures stream.indention == old(stream.indention)
    ensures stream.buf ==
            old(stream.buf) + Text(DocOf(TArray(items), stream.indention, Layout(stream.indentionStep, compact)))
    decreases items, 1
  {
    hide Text, DocOf, Indent;
    ghost var l := Layout(stream.indentionStep, compact);
    if items.NoTrees? {
      EmptyArrayText(old(stream.buf), stream.indention + l.step, l);
      if compact {
        WriteEmptyArray(stream);
      } else {
        WriteArrayStart(stream);
        WriteArrayEnd(stream);
      }
      ArrayDoc(items, stream.indention, l);
      return;
    }
    WriteArrayStart(stream);
    ghost var buf := stream.buf;
    WriteItems(stream, items, compact);
    ArrayText(old(stream.buf), items, stream.indention, l);
  }

  lemma ArrayDoc(items: TreeList, indention: int, l: Layout)
    ensures Text(DocOf(TArray(items), indention, l)) ==
            [OPEN_BRACKET] + if items.NoTrees? then EmptySpace(indention + l.step, l) + [CLOSE_BRACKET]
                             else ItemsText(ItemsOf(items, indention + l.step, l))
  {
    hide ItemsText;
  }

  lemma EmptyArrayText(buf: seq<byte>, indention: int, l: Layout)
    ensures l.compact ==>
              buf + [OPEN_BRACKET, CLOSE_BRACKET] ==
              buf + ([OPEN_BRACKET] + (EmptySpace(indention, l) + [CLOSE_BRACKET]))
    ensures !l.compact ==>
              buf + [OPEN_BRACKET] + Indent(indention, 0) + Indent(indention, l.step) + [CLOSE_BRACKET] ==
              buf + ([OPEN_BRACKET] + (EmptySpace(indention, l) + [CLOSE_BRACKET]))
  {
    hide Indent;
  }

  /** What is behind the bracket and the line break of an array. */
  function AfterIndent(items: TreeList, indention: int, l: Layout): seq<byte>
    requires items.Trees?
  {
    Text(DocOf(items.first, indention, l)) + RestText(items.rest, indention, l)
  }

  /** What is behind an element. */
  function RestText(rest: TreeList, indention: int, l: Layout): seq<byte> {
    if rest.NoTrees? then Indent(indention, l.step) + [CLOSE_BRACKET]
    else [COMMA] + ItemsText(ItemsOf(rest, indention, l))
  }

  lemma ItemsTextSplit(items: TreeList, indention: int, l: Layout)
    requires items.Trees?
    ensures ItemsText(ItemsOf(items, indention, l)) == Indent(indention, 0) + AfterIndent(items, indention, l)
  {
    hide Indent, Text, DocOf;
    if items.rest.Trees? {
      assert [] + RestText(items.rest, indention, l) == RestText(items.rest, indention, l);
    }
  }

  lemma ArrayText(buf: seq<byte>, items: TreeList, indention: int, l: Layout)
    requires items.Trees?
    ensures buf + [OPEN_BRACKET] + Indent(indention + l.step, 0) + AfterIndent(items, indention + l.step, l) ==
            buf + Text(DocOf(TArray(items), indention, l))
  {
    hide Indent, AfterIndent, ItemsText;
    ItemsTextSplit(items, indention + l.step, l);
  }

  /** The elements from the first of `items` on, and the end of the array. */
  method WriteItems(stream: Stream, items: TreeList, compact: bool)
    requires items.Trees?
    modifies stream
    ensures stream.indention == old(stream.indention) - stream.indentionStep
    ensures stream.buf ==
            old(stream.buf) + AfterIndent(items, old(stream.indention), Layout(stream.indentionStep, compact))
    decreases items, 0
  {
    hide Indent, Text, DocOf, ItemsText;
    ghost var indention, l := stream.indention, Layout(stream.indentionStep, compact);
    WriteTree(stream, items.first, compact);
    ghost var buf := stream.buf;
    if items.rest.NoTrees? {
      WriteArrayEnd(stream);
      assert buf + Indent(indention, l.step) + [CLOSE_BRACKET] == buf + RestText(items.rest, indention, l);
    } else {
      WriteMore(stream);
      WriteItems(stream, items.rest, compact);
      ItemsTextSplit(items.rest, indention, l);
      assert buf + [COMMA] + Indent(indention, 0) + AfterIndent(items.rest, indention, l)
          == buf + RestText(items.rest, indention, l);
    }
    assert buf + RestText(items.rest, indention, l) == old(stream.buf) + AfterIndent(items, indention, l);
  }

  method WriteObject(stream: Stream, fields: TreeFields, compact: bool)
    modifies stream
    ensures stream.indention == old(stream.indention)
    ensures stream.buf ==
            old(stream.buf) + Text(DocOf(TObject(fields), stream.indention, Layout(stream.indentionStep, compact)))
    decreases fields, 1
  {
    hide Text, DocOf, Indent;
    ghost var l := Layout(stream.indentionStep, compact);
    if fields.NoFields? {
      EmptyObjectText(old(stream.buf), stream.indention + l.step, l);
      if compact {
        WriteEmptyObject(stream);
      } else {
        WriteObjectStart(stream);
        WriteObjectEnd(stream);
      }
      ObjectDoc(fields, stream.indention, l);
      return;
    }
    WriteObjectStart(stream);
    WriteFields(stream, fields, compact);
    ObjectText(old(stream.buf), fields, stream.indention, l);
  }

  lemma ObjectDoc(fields: TreeFields, indention: int, l: Layout)
    ensures Text(DocOf(TObject(fields), indention, l)) ==
            [OPEN_BRACE] + if fields.NoFields? then EmptySpace(indention + l.step, l) + [CLOSE_BRACE]
                           else MembersText(MembersOf(fields, indention + l.step, l))
  {
    hide MembersText;
  }

  lemma EmptyObjectText(buf: seq<byte>, indention: int, l: Layout)
    ensures l.compact ==>
              buf + [OPEN_BRACE, CLOSE_BRACE] == buf + ([OPEN_BRACE] + (EmptySpace(indention, l) + [CLOSE_BRACE]))
    ensures !l.compact ==>
              buf + [OPEN_BRACE] + Indent(indention, 0) + Indent(indention, l.step) + [CLOSE_BRACE] ==
              buf + ([OPEN_BRACE] + (EmptySpace(indention, l) + [CLOSE_BRACE]))
  {
    hide Indent;
  }

  function Colon(indention: int): seq<byte> {
    if indention > 0 then [COLON, SPACE] else [COLON]
  }

  /** What is behind the brace and the line break of an object. */
  function FieldsAfterIndent(fields: TreeFields, indention: int, l: Layout): seq<byte>
    requires fields.Fields?
  {
    Quoted(EscapeAll(fields.name)) + (Colon(indention) +
    (Text(DocOf(fields.first, indention, l)) + FieldsRestText(fields.rest, indention, l)))
  }

  /** What is behind a field. */
  function FieldsRestText(rest: TreeFields, indention: int, l: Layout): seq<byte> {
    if rest.NoFields? then Indent(indention, l.step) + [CLOSE_BRACE]
    else [COMMA] + MembersText(MembersOf(rest, indention, l))
  }

  lemma FieldsTextSplit(fields: TreeFields, indention: int, l: Layout)
    requires fields.Fields?
    ensures MembersText(MembersOf(fields, indention, l)) ==
            Indent(indention, 0) + FieldsAfterIndent(fields, indention, l)
  {
    hide Indent, Text, DocOf, EscapeAll, Quoted, FieldsRestText, AfterMember;
    var text := Text(DocOf(fields.first, indention, l));
    AfterFieldText(fields, indention, l);
    ColonText(indention, text + FieldsRestText(fields.rest, indention, l));
  }

  lemma AfterFieldText(fields: TreeFields, indention: int, l: Layout)
    requires fields.Fields?
    ensures var m := MembersOf(fields, indention, l);
      m.after + AfterMember(m) == FieldsRestText(fields.rest, indention, l)
  {
    hide Indent, DocOf, EscapeAll, MembersText;
  }

  lemma ColonText(indention: int, rest: seq<byte>)
    ensures [] + ([COLON] + ((if indention > 0 then [SPACE] else []) + rest)) == Colon(indention) + rest
  {
  }

  lemma ObjectText(buf: seq<byte>, fields: TreeFields, indention: int, l: Layout)
    requires fields.Fields?
    ensures buf + [OPEN_BRACE] + Indent(indention + l.step, 0) + FieldsAfterIndent(fields, indention + l.step, l) ==
            buf + Text(DocOf(TObject(fields), indention, l))
  {
    hide Indent, FieldsAfterIndent, MembersText;
    FieldsTextSplit(fields, indention + l.step, l);
  }

  /** The fields from the first of `fields` on, and the end of the object. */
  method WriteFields(stream: Stream, fields: TreeFields, compact: bool)
    requires fields.Fields?
    modifies stream
    ensures stream.indention == old(stream.indention) - stream.indentionStep
    ensures stream.buf ==
            old(stream.buf) + FieldsAfterIndent(fields, old(stream.indention), Layout(stream.indentionStep, compact))
    decreases fields, 0
  {
    hide Indent, Text, DocOf, MembersText, EscapeAll, Quoted, FieldsAfterIndent;
    ghost var indention, l := stream.indention, Layout(stream.indentionStep, compact);
    WriteObjectField(stream, fields.name);
    QuotedText(old(stream.buf), EscapeAll(fields.name));
    WriteTree(stream, fields.first, compact);
    ghost var buf := stream.buf;
    if fields.rest.NoFields? {
      WriteObjectEnd(stream);
      assert buf + Indent(indention, l.step) + [CLOSE_BRACE] == buf + FieldsRestText(fields.rest, indention, l);
    } else {
      WriteMore(stream);
      WriteFields(stream, fields.rest, compact);
      FieldsTextSplit(fields.rest, indention, l);
      assert buf + [COMMA] + Indent(indention, 0) + FieldsAfterIndent(fields.rest, indention, l)
          == buf + FieldsRestText(fields.rest, indention, l);
    }
    FieldWritten(old(stream.buf), fields, indention, l);
  }

  lemma FieldWritten(buf: seq<byte>, fields: TreeFields, indention: int, l: Layout)
    requires fields.Fields?
    ensures buf + Quoted(EscapeAll(fields.name)) + Colon(indention) + Text(DocOf(fields.first, indention, l))
            + FieldsRestText(fields.rest, indention, l) ==
            buf + FieldsAfterIndent(fields, indention, l)
  {
    hide Text, DocOf, EscapeAll, Quoted, FieldsRestText;
  }
}

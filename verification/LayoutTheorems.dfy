/** How a written tree is laid out: the text with indention is made from the one without, byte by byte. */
module LayoutTheorems {
  import opened Bytes
  import opened StringMachines
  import opened FloatMachines
  import opened StreamStr
  import opened StreamWrite
  import opened Grammar
  import opened NumberForms
  import opened DocTheorems
  import opened Trees
  import opened TreeTheorems

  // ---------- The layout ----------

  predicate Opens(c: byte) {
    c == 0x5B || c == 0x7B
  }

  predicate Closes(c: byte) {
    c == 0x5D || c == 0x7D
  }

  /** A line feed and `n` spaces. */
  function Line(n: nat): seq<byte> {
    [0x0A] + seq<byte>(n, _ => 0x20)
  }

  /**
   * A text without blanks, laid out; `open` containers are open in front of it. Strings are copied. Behind an opening
   * bracket and a comma a line begins with `step` spaces for each open container, in front of a closing bracket one
   * with as many for each container that stays open; behind a colon stands a space. With `compact` an empty
   * container keeps its brackets together.
   */
  function Pretty(t: seq<byte>, open: nat, step: nat, compact: bool): seq<byte>
    decreases |t|
  {
    if t == [] then []
    else if t[0] == 0x22 then
      match StringEnd(t, 1)
      case Some(e) => t[..e] + Pretty(t[e..], open, step, compact)
      case None => t
    else if compact && Opens(t[0]) && |t| > 1 && Closes(t[1]) then t[..2] + Pretty(t[2..], open, step, compact)
    else if Opens(t[0]) then [t[0]] + Line(step * (open + 1)) + Pretty(t[1..], open + 1, step, compact)
    else if Closes(t[0]) && open > 0 then
      Line(step * (open - 1)) + [t[0]] + Pretty(t[1..], open - 1, step, compact)
    else if t[0] == 0x2C then [0x2C] + Line(step * open) + Pretty(t[1..], open, step, compact)
    else if t[0] == 0x3A then [0x3A, 0x20] + Pretty(t[1..], open, step, compact)
    else [t[0]] + Pretty(t[1..], open, step, compact)
  }

  /** Outside strings stand no blanks. */
  predicate HasNoBlanks(t: seq<byte>)
    decreases |t|
  {
    if t == [] then true
    else if t[0] == 0x22 then StringEnd(t, 1).Some? && HasNoBlanks(t[StringEnd(t, 1).value..])
    else t[0] != 0x20 && t[0] != 0x09 && t[0] != 0x0A && t[0] != 0x0D && HasNoBlanks(t[1..])
  }

  // ---------- Pieces of a text ----------

  /** `x` in front of `rest` is laid out as `y`. */
  ghost predicate LaysOut(x: seq<byte>, y: seq<byte>, rest: seq<byte>, open: nat, after: nat, step: nat, compact: bool)
  {
    && Pretty(x + rest, open, step, compact) == y + Pretty(rest, after, step, compact)
    && HasNoBlanks(x + rest) == HasNoBlanks(rest)
  }

  lemma LaysOutConcat(x: seq<byte>, y: seq<byte>, x': seq<byte>, y': seq<byte>, rest: seq<byte>,
                      open: nat, between: nat, after: nat, step: nat, compact: bool)
    requires LaysOut(x, y, x' + rest, open, between, step, compact)
    requires LaysOut(x', y', rest, between, after, step, compact)
    ensures LaysOut(x + x', y + y', rest, open, after, step, compact)
  {
    hide Pretty, HasNoBlanks;
    assert x + x' + rest == x + (x' + rest);
    var p := Pretty(rest, after, step, compact);
    assert y + (y' + p) == y + y' + p;
  }

  lemma Behind(c: byte, rest: seq<byte>)
    ensures ([c] + rest)[0] == c && ([c] + rest)[1..] == rest
  {
  }

  /** A byte that stays as it is. */
  predicate IsOrdinary(c: byte) {
    c > 0x20 && c != 0x22 && c != 0x2C && c != 0x3A && !Opens(c) && !Closes(c)
  }

  lemma {:induction false} OrdinaryLaysOut(x: seq<byte>, rest: seq<byte>, open: nat, step: nat, compact: bool)
    requires forall k :: 0 <= k < |x| ==> IsOrdinary(x[k])
    ensures LaysOut(x, x, rest, open, open, step, compact)
    decreases |x|
  {
    hide StringEnd, Line;
    if x == [] {
      assert [] + rest == rest && [] + Pretty(rest, open, step, compact) == Pretty(rest, open, step, compact);
    } else {
      OrdinaryLaysOut(x[1..], rest, open, step, compact);
      assert (x + rest)[1..] == x[1..] + rest;
      assert [x[0]] + (x[1..] + Pretty(rest, open, step, compact)) == x + Pretty(rest, open, step, compact);
    }
  }

  lemma OpenLaysOut(c: byte, rest: seq<byte>, open: nat, step: nat, compact: bool)
    requires Opens(c) && (compact && rest != [] ==> !Closes(rest[0]))
    ensures LaysOut([c], [c] + Line(step * (open + 1)), rest, open, open + 1, step, compact)
  {
    hide StringEnd, Line;
    Behind(c, rest);
  }

  lemma CloseLaysOut(c: byte, rest: seq<byte>, open: nat, step: nat, compact: bool)
    requires Closes(c) && open > 0
    ensures LaysOut([c], Line(step * (open - 1)) + [c], rest, open, open - 1, step, compact)
  {
    hide StringEnd, Line;
    Behind(c, rest);
  }

  lemma CommaLaysOut(rest: seq<byte>, open: nat, step: nat, compact: bool)
    ensures LaysOut([COMMA], [COMMA] + Line(step * open), rest, open, open, step, compact)
  {
    hide StringEnd, Line;
    Behind(COMMA, rest);
  }

  lemma ColonLaysOut(rest: seq<byte>, open: nat, step: nat, compact: bool)
    ensures LaysOut([COLON], [COLON, SPACE], rest, open, open, step, compact)
  {
    hide StringEnd, Line;
    Behind(COLON, rest);
  }

  lemma EmptyLaysOut(a: byte, b: byte, rest: seq<byte>, open: nat, step: nat)
    requires Opens(a) && Closes(b)
    ensures LaysOut([a, b], [a, b], rest, open, open, step, true)
  {
    hide StringEnd, Line;
    var t := [a, b] + rest;
    assert t[0] == a && t[1] == b && t[..2] == [a, b] && t[2..] == rest;
    assert t[1..][0] == b && t[1..][1..] == rest;
    assert HasNoBlanks(t) == HasNoBlanks(t[1..]) && HasNoBlanks(t[1..]) == HasNoBlanks(rest);
  }

  lemma StringLaysOut(b: seq<byte>, rest: seq<byte>, open: nat, step: nat, compact: bool)
    ensures LaysOut(Quoted(EscapeAll(b)), Quoted(EscapeAll(b)), rest, open, open, step, compact)
  {
    hide StringEnd, Line, EscapeAll, RawEnd, Decode, IsStringBody;
    var x := Quoted(EscapeAll(b));
    var t := x + rest;
    EscapedIsBody(b);
    assert t[0..0 + |x|] == x;
    QuotedThere(EscapeAll(b), t, 0);
    RawEndIsStringEnd(t, 1);
    assert t[..|x|] == x && t[|x|..] == rest;
  }

  // ---------- Trees ----------

  /** A tree written without indention. */
  function Plainly(t: Tree, compact: bool): seq<byte> {
    Text(DocOf(t, 0, Layout(0, compact)))
  }

  /** A tree written where `open` containers are open. */
  function Indented(t: Tree, open: nat, step: nat, compact: bool): seq<byte> {
    Text(DocOf(t, step * open, Layout(step, compact)))
  }

  lemma LineIs(step: nat, open: nat)
    requires step > 0 && open > 0
    ensures Indent(step * open, 0) == Line(step * open)
    ensures Indent(step * open, step) == Line(step * (open - 1))
    ensures step * open > 0 && step * (open - 1) + step == step * open
  {
    assert step * open == step * (open - 1) + step;
    SpacesAre(step * open);
    SpacesAre(step * (open - 1));
  }

  lemma SpacesAre(n: nat)
    ensures [LINE_FEED] + Spaces(n) == Line(n)
  {
    assert forall k :: 0 <= k < n ==> Spaces(n)[k] == SPACE;
  }

  lemma NoIndent(l: Layout)
    requires l.step == 0
    ensures Indent(0, 0) == [] && EmptySpace(0, l) == []
  {
  }

  lemma NumberLaysOut(text: seq<byte>, rest: seq<byte>, open: nat, step: nat, compact: bool)
    requires IsNumberText(text)
    ensures LaysOut(text, text, rest, open, open, step, compact)
  {
    hide IsNumberText;
    ValidIsRun(text);
    OrdinaryLaysOut(text, rest, open, step, compact);
  }

  /** No value begins with a closing bracket. */
  lemma FirstByte(t: Tree, indention: int, l: Layout)
    requires IsWritable(t)
    ensures Text(DocOf(t, indention, l)) != [] && !Closes(Text(DocOf(t, indention, l))[0])
  {
    hide ItemsText, MembersText, EscapeAll;
    if t.TNumber? {
      ValidIsRun(t.text);
    }
  }

  lemma {:induction false} TreeLaysOut(t: Tree, rest: seq<byte>, open: nat, step: nat, compact: bool)
    requires IsWritable(t) && step > 0
    ensures LaysOut(Plainly(t, compact), Indented(t, open, step, compact), rest, open, open, step, compact)
    decreases t, 1
  {
    hide LaysOut, EscapeAll, IsNumberText, Quoted, ItemsText, MembersText;
    match t {
      case TNull => OrdinaryLaysOut(NULL_TEXT, rest, open, step, compact);
      case TBool(b) => OrdinaryLaysOut(if b then TRUE_TEXT else FALSE_TEXT, rest, open, step, compact);
      case TNumber(text) => NumberLaysOut(text, rest, open, step, compact);
      case TString(bytes) => StringLaysOut(bytes, rest, open, step, compact);
      case TArray(items) => ArrayLaysOut(items, rest, open, step, compact);
      case TObject(fields) => ObjectLaysOut(fields, rest, open, step, compact);
    }
  }

  /** An empty container: `a` opens it and `b` closes it. */
  lemma EmptyContainer(a: byte, b: byte, rest: seq<byte>, open: nat, step: nat, compact: bool)
    requires Opens(a) && Closes(b) && step > 0
    ensures LaysOut([a] + (EmptySpace(0, Layout(0, compact)) + [b]),
                    [a] + (EmptySpace(step * open + step, Layout(step, compact)) + [b]), rest, open, open, step,
                    compact)
  {
    hide LaysOut, Indent;
    NoIndent(Layout(0, compact));
    assert [a] + ([] + [b]) == [a, b] == [a] + [b];
    if compact {
      EmptyLaysOut(a, b, rest, open, step);
    } else {
      LineIs(step, open + 1);
      OpenLaysOut(a, [b] + rest, open, step, compact);
      CloseLaysOut(b, rest, open + 1, step, compact);
      var x, y := Line(step * (open + 1)), Line(step * open);
      LaysOutConcat([a], [a] + x, [b], y + [b], rest, open, open + 1, open, step, compact);
      assert [a] + x + (y + [b]) == [a] + (x + y + [b]);
    }
  }

  /** A container that is not empty: `x` and `y` are its texts behind the opening bracket and its line break. */
  lemma ContainerLaysOut(c: byte, x: seq<byte>, y: seq<byte>, rest: seq<byte>, open: nat, step: nat, compact: bool)
    requires Opens(c) && x + rest != [] && !Closes((x + rest)[0])
    requires LaysOut(x, y, rest, open + 1, open, step, compact)
    ensures LaysOut([c] + x, [c] + (Line(step * (open + 1)) + y), rest, open, open, step, compact)
  {
    hide LaysOut, Line;
    var line := Line(step * (open + 1));
    OpenLaysOut(c, x + rest, open, step, compact);
    LaysOutConcat([c], [c] + line, x, y, rest, open, open + 1, open, step, compact);
    assert [c] + line + y == [c] + (line + y);
  }

  lemma {:induction false} ArrayLaysOut(items: TreeList, rest: seq<byte>, open: nat, step: nat, compact: bool)
    requires AreWritable(items) && step > 0
    ensures LaysOut(Plainly(TArray(items), compact), Indented(TArray(items), open, step, compact), rest, open, open,
                    step, compact)
    decreases items, 1
  {
    hide LaysOut, Indent, AfterIndent, Plainly, Indented, EmptySpace, Line;
    if items.NoTrees? {
      EmptyArrayTexts(items, open, step, compact);
      EmptyContainer(OPEN_BRACKET, CLOSE_BRACKET, rest, open, step, compact);
    } else {
      var x := AfterIndent(items, 0, Layout(0, compact));
      var y := AfterIndent(items, step * (open + 1), Layout(step, compact));
      ArrayTexts(items, open, step, compact);
      ItemsBeginWithValue(items, rest, Layout(0, compact));
      ItemsLayOut(items, rest, open + 1, step, compact);
      ContainerLaysOut(OPEN_BRACKET, x, y, rest, open, step, compact);
    }
  }

  lemma EmptyArrayTexts(items: TreeList, open: nat, step: nat, compact: bool)
    requires items.NoTrees?
    ensures Plainly(TArray(items), compact) == [OPEN_BRACKET] + (EmptySpace(0, Layout(0, compact)) + [CLOSE_BRACKET])
    ensures Indented(TArray(items), open, step, compact) ==
            [OPEN_BRACKET] + (EmptySpace(step * open + step, Layout(step, compact)) + [CLOSE_BRACKET])
  {
    hide EmptySpace, Text;
    ArrayDoc(items, 0, Layout(0, compact));
    ArrayDoc(items, step * open, Layout(step, compact));
  }

  lemma ArrayTexts(items: TreeList, open: nat, step: nat, compact: bool)
    requires items.Trees? && step > 0
    ensures Plainly(TArray(items), compact) == [OPEN_BRACKET] + AfterIndent(items, 0, Layout(0, compact))
    ensures Indented(TArray(items), open, step, compact) ==
            [OPEN_BRACKET] + (Line(step * (open + 1)) + AfterIndent(items, step * (open + 1), Layout(step, compact)))
  {
    hide AfterIndent, Text, Line, Indent, ItemsText, MembersText;
    var l0, l := Layout(0, compact), Layout(step, compact);
    ArrayDoc(items, 0, l0);
    ArrayDoc(items, step * open, l);
    LineIs(step, open + 1);
    NoIndent(l0);
    ItemsTextSplit(items, 0, l0);
    ItemsTextSplit(items, step * (open + 1), l);
    assert [] + AfterIndent(items, 0, l0) == AfterIndent(items, 0, l0);
  }

  lemma ItemsBeginWithValue(items: TreeList, rest: seq<byte>, l: Layout)
    requires items.Trees? && AreWritable(items)
    ensures var t := AfterIndent(items, 0, l) + rest; t != [] && !Closes(t[0])
  {
    hide Text, RestText;
    FirstByte(items.first, 0, l);
  }

  /** The elements behind the first line break of an array, and its closing bracket. */
  lemma {:induction false} ItemsLayOut(items: TreeList, rest: seq<byte>, open: nat, step: nat, compact: bool)
    requires items.Trees? && AreWritable(items) && step > 0 && open > 0
    ensures LaysOut(AfterIndent(items, 0, Layout(0, compact)), AfterIndent(items, step * open, Layout(step, compact)),
                    rest, open, open - 1, step, compact)
    decreases items, 0
  {
    hide LaysOut, Indent, ItemsText, Text;
    var l0, l := Layout(0, compact), Layout(step, compact);
    var x, y := RestText(items.rest, 0, l0), RestText(items.rest, step * open, l);
    LineIs(step, open);
    NoIndent(l0);
    if items.rest.NoTrees? {
      assert [] + [CLOSE_BRACKET] == [CLOSE_BRACKET];
      CloseLaysOut(CLOSE_BRACKET, rest, open, step, compact);
    } else {
      var a, b := AfterIndent(items.rest, 0, l0), AfterIndent(items.rest, step * open, l);
      ItemsTextSplit(items.rest, 0, l0);
      ItemsTextSplit(items.rest, step * open, l);
      assert [] + a == a;
      CommaLaysOut(a + rest, open, step, compact);
      ItemsLayOut(items.rest, rest, open, step, compact);
      LaysOutConcat([COMMA], [COMMA] + Line(step * open), a, b, rest, open, open, open - 1, step, compact);
      assert [COMMA] + Line(step * open) + b == [COMMA] + (Line(step * open) + b);
    }
    TreeLaysOut(items.first, x + rest, open, step, compact);
    LaysOutConcat(Plainly(items.first, compact), Indented(items.first, open, step, compact), x, y, rest, open, open,
                  open - 1, step, compact);
  }

  lemma {:induction false} ObjectLaysOut(fields: TreeFields, rest: seq<byte>, open: nat, step: nat, compact: bool)
    requires FieldsAreWritable(fields) && step > 0
    ensures LaysOut(Plainly(TObject(fields), compact), Indented(TObject(fields), open, step, compact), rest, open, open,
                    step, compact)
    decreases fields, 1
  {
    hide LaysOut, Indent, FieldsAfterIndent, Plainly, Indented, EmptySpace, Line;
    if fields.NoFields? {
      EmptyObjectTexts(fields, open, step, compact);
      EmptyContainer(OPEN_BRACE, CLOSE_BRACE, rest, open, step, compact);
    } else {
      var x := FieldsAfterIndent(fields, 0, Layout(0, compact));
      var y := FieldsAfterIndent(fields, step * (open + 1), Layout(step, compact));
      ObjectTexts(fields, open, step, compact);
      FieldsBeginWithQuote(fields, rest, Layout(0, compact));
      FieldsLayOut(fields, rest, open + 1, step, compact);
      ContainerLaysOut(OPEN_BRACE, x, y, rest, open, step, compact);
    }
  }

  lemma EmptyObjectTexts(fields: TreeFields, open: nat, step: nat, compact: bool)
    requires fields.NoFields?
    ensures Plainly(TObject(fields), compact) == [OPEN_BRACE] + (EmptySpace(0, Layout(0, compact)) + [CLOSE_BRACE])
    ensures Indented(TObject(fields), open, step, compact) ==
            [OPEN_BRACE] + (EmptySpace(step * open + step, Layout(step, compact)) + [CLOSE_BRACE])
  {
    hide EmptySpace, Text;
    ObjectDoc(fields, 0, Layout(0, compact));
    ObjectDoc(fields, step * open, Layout(step, compact));
  }

  lemma ObjectTexts(fields: TreeFields, open: nat, step: nat, compact: bool)
    requires fields.Fields? && step > 0
    ensures Plainly(TObject(fields), compact) == [OPEN_BRACE] + FieldsAfterIndent(fields, 0, Layout(0, compact))
    ensures Indented(TObject(fields), open, step, compact) ==
            [OPEN_BRACE] +
            (Line(step * (open + 1)) + FieldsAfterIndent(fields, step * (open + 1), Layout(step, compact)))
  {
    hide FieldsAfterIndent, Text, Line, Indent, ItemsText, MembersText;
    var l0, l := Layout(0, compact), Layout(step, compact);
    ObjectDoc(fields, 0, l0);
    ObjectDoc(fields, step * open, l);
    LineIs(step, open + 1);
    NoIndent(l0);
    FieldsTextSplit(fields, 0, l0);
    FieldsTextSplit(fields, step * (open + 1), l);
    assert [] + FieldsAfterIndent(fields, 0, l0) == FieldsAfterIndent(fields, 0, l0);
  }

  lemma FieldsBeginWithQuote(fields: TreeFields, rest: seq<byte>, l: Layout)
    requires fields.Fields?
    ensures var t := FieldsAfterIndent(fields, 0, l) + rest; t != [] && !Closes(t[0])
  {
    hide Text, FieldsRestText, EscapeAll;
  }

  /** The fields behind the first line break of an object, and its closing brace. */
  lemma {:induction false} FieldsLayOut(fields: TreeFields, rest: seq<byte>, open: nat, step: nat, compact: bool)
    requires fields.Fields? && FieldsAreWritable(fields) && step > 0 && open > 0
    ensures LaysOut(FieldsAfterIndent(fields, 0, Layout(0, compact)),
                    FieldsAfterIndent(fields, step * open, Layout(step, compact)), rest, open, open - 1, step, compact)
    decreases fields, 0
  {
    hide LaysOut, Indent, MembersText, Text, EscapeAll, Quoted;
    var l0, l := Layout(0, compact), Layout(step, compact);
    var x, y := FieldsRestText(fields.rest, 0, l0), FieldsRestText(fields.rest, step * open, l);
    LineIs(step, open);
    NoIndent(l0);
    if fields.rest.NoFields? {
      assert [] + [CLOSE_BRACE] == [CLOSE_BRACE];
      CloseLaysOut(CLOSE_BRACE, rest, open, step, compact);
    } else {
      var a, b := FieldsAfterIndent(fields.rest, 0, l0), FieldsAfterIndent(fields.rest, step * open, l);
      FieldsTextSplit(fields.rest, 0, l0);
      FieldsTextSplit(fields.rest, step * open, l);
      assert [] + a == a;
      CommaLaysOut(a + rest, open, step, compact);
      FieldsLayOut(fields.rest, rest, open, step, compact);
      LaysOutConcat([COMMA], [COMMA] + Line(step * open), a, b, rest, open, open, open - 1, step, compact);
      assert [COMMA] + Line(step * open) + b == [COMMA] + (Line(step * open) + b);
    }
    TreeLaysOut(fields.first, x + rest, open, step, compact);
    FieldLaysOut(fields, x, y, rest, open, step, compact);
  }

  /** A name, its colon and its value, in front of what is behind the field. */
  lemma FieldLaysOut(fields: TreeFields, x: seq<byte>, y: seq<byte>, rest: seq<byte>, open: nat, step: nat,
                     compact: bool)
    requires fields.Fields? && step > 0 && open > 0
    requires LaysOut(Plainly(fields.first, compact), Indented(fields.first, open, step, compact), x + rest, open, open,
                     step, compact)
    requires LaysOut(x, y, rest, open, open - 1, step, compact)
    ensures LaysOut(Quoted(EscapeAll(fields.name)) + ([COLON] + (Plainly(fields.first, compact) + x)),
                    Quoted(EscapeAll(fields.name)) +
                    ([COLON, SPACE] + (Indented(fields.first, open, step, compact) + y)),
                    rest, open, open - 1, step, compact)
  {
    hide LaysOut, EscapeAll, Quoted, Plainly, Indented;
    var a, b := Plainly(fields.first, compact), Indented(fields.first, open, step, compact);
    var name := Quoted(EscapeAll(fields.name));
    LaysOutConcat(a, b, x, y, rest, open, open, open - 1, step, compact);
    ColonLaysOut(a + x + rest, open, step, compact);
    LaysOutConcat([COLON], [COLON, SPACE], a + x, b + y, rest, open, open, open - 1, step, compact);
    StringLaysOut(fields.name, [COLON] + (a + x) + rest, open, step, compact);
    LaysOutConcat(name, name, [COLON] + (a + x), [COLON, SPACE] + (b + y), rest, open, open, open - 1, step, compact);
  }

  /**
   * A tree written without indention has no blanks outside its strings; written with indention, it is that text
   * laid out.
   */
  lemma WrittenIsLaidOut(t: Tree, step: nat, compact: bool)
    requires IsWritable(t) && step > 0
    ensures HasNoBlanks(Text(DocOf(t, 0, Layout(0, compact))))
    ensures Text(DocOf(t, 0, Layout(step, compact))) == Pretty(Text(DocOf(t, 0, Layout(0, compact))), 0, step, compact)
  {
    hide Text;
    TreeLaysOut(t, [], 0, step, compact);
    assert step * 0 == 0;
    assert Plainly(t, compact) + [] == Plainly(t, compact);
    assert Indented(t, 0, step, compact) + [] == Indented(t, 0, step, compact);
  }
}

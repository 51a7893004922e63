/** The grammar of RFC 8259 as its text has it, and the concrete syntax trees: the same texts. */
module Rfc8259 {
  import opened Bytes
  import opened Decimals
  import opened IntMachines
  import opened StringMachines
  import opened FloatMachines
  import opened Grammar
  import opened StringUnits
  import opened AcceptTheorems

  // ---------- The grammar ----------

  /** Section 2: ws. */
  predicate IsWs(t: seq<byte>) {
    forall k :: 0 <= k < |t| ==> t[k] == 0x20 || t[k] == 0x09 || t[k] == 0x0A || t[k] == 0x0D
  }

  predicate AreDIGIT(t: seq<byte>) {
    forall k :: 0 <= k < |t| ==> 0x30 <= t[k] <= 0x39
  }

  /** Section 6: int, frac and exp. */
  predicate IsInt(t: seq<byte>) {
    t == [0x30] || (t != [] && 0x31 <= t[0] && AreDIGIT(t))
  }

  predicate IsFrac(t: seq<byte>) {
    |t| > 1 && t[0] == 0x2E && AreDIGIT(t[1..])
  }

  predicate IsExp(t: seq<byte>) {
    && |t| > 1 && (t[0] == 0x65 || t[0] == 0x45)
    && (AreDIGIT(t[1..]) || (|t| > 2 && (t[1] == 0x2D || t[1] == 0x2B) && AreDIGIT(t[2..])))
  }

  /** Section 6: number. */
  ghost predicate IsNumber(t: seq<byte>) {
    var k := if t != [] && t[0] == 0x2D then 1 else 0;
    exists f, x :: k <= f <= x <= |t| &&
      IsInt(t[k..f]) && (f == x || IsFrac(t[f..x])) && (x == |t| || IsExp(t[x..]))
  }

  /** Section 7: string. */
  ghost predicate IsString(t: seq<byte>) {
    && |t| >= 2 && t[0] == 0x22 && t[|t| - 1] == 0x22
    && exists us :: AreUnits(us) && UnitsText(us) == t[1..|t| - 1]
  }

  /** Section 3: value. */
  ghost predicate IsValue(t: seq<byte>)
    decreases |t|, 2
  {
    || t == [0x66, 0x61, 0x6C, 0x73, 0x65]
    || t == [0x6E, 0x75, 0x6C, 0x6C]
    || t == [0x74, 0x72, 0x75, 0x65]
    || IsNumber(t)
    || IsString(t)
    || (IsBetween(0x5B, t, 0x5D) && (IsWs(Inner(t)) || AreElements(Inner(t))))
    || (IsBetween(0x7B, t, 0x7D) && (IsWs(Inner(t)) || AreMembers(Inner(t))))
  }

  predicate IsBetween(open: byte, t: seq<byte>, close: byte) {
    |t| >= 2 && t[0] == open && t[|t| - 1] == close
  }

  function Inner(t: seq<byte>): seq<byte>
    requires |t| >= 2
  {
    t[1..|t| - 1]
  }

  /** A value with whitespace around it. */
  ghost predicate IsElement(t: seq<byte>)
    decreases |t|, 3
  {
    exists i, j :: 0 <= i <= j <= |t| && IsWs(t[..i]) && IsValue(t[i..j]) && IsWs(t[j..])
  }

  /** Section 5: values with commas between them. */
  ghost predicate AreElements(t: seq<byte>)
    decreases |t|, 4
  {
    || IsElement(t)
    || exists k: nat :: AreElementsAt(t, k)
  }

  /** The first comma between them stands at `k`. */
  ghost predicate AreElementsAt(t: seq<byte>, k: nat)
    decreases |t|, 3
  {
    k < |t| && t[k] == 0x2C && IsElement(t[..k]) && AreElements(t[k + 1..])
  }

  /** Section 4: a member, with whitespace around its name and its value. */
  ghost predicate IsMember(t: seq<byte>)
    decreases |t|, 3
  {
    exists i: nat, j: nat, c: nat :: IsMemberAt(t, i, j, c)
  }

  /** Its name stands from `i` to `j`, and its colon at `c`. */
  ghost predicate IsMemberAt(t: seq<byte>, i: nat, j: nat, c: nat)
    decreases |t|, 2
  {
    && i <= j <= c < |t|
    && IsWs(t[..i]) && IsString(t[i..j]) && IsWs(t[j..c]) && t[c] == 0x3A && IsElement(t[c + 1..])
  }

  ghost predicate AreMembers(t: seq<byte>)
    decreases |t|, 4
  {
    || IsMember(t)
    || exists k: nat :: AreMembersAt(t, k)
  }

  ghost predicate AreMembersAt(t: seq<byte>, k: nat)
    decreases |t|, 3
  {
    k < |t| && t[k] == 0x2C && IsMember(t[..k]) && AreMembers(t[k + 1..])
  }

  // ---------- Numbers ----------

  lemma DigitsAre(t: seq<byte>, i: nat, e: nat)
    requires i <= e <= |t|
    ensures AreDIGIT(t[i..e]) <==> forall k :: i <= k < e ==> IsDigit(t[k])
    ensures AreDigits(t[i..e]) <==> AreDIGIT(t[i..e])
  {
    if AreDIGIT(t[i..e]) {
      forall k | i <= k < e ensures IsDigit(t[k]) {
        assert t[i..e][k - i] == t[k];
      }
    }
  }

  lemma IntIs(t: seq<byte>, k: nat, f: nat)
    requires k <= f <= |t| && (f < |t| ==> !IsDigit(t[f]))
    ensures IsInt(t[k..f]) <==> k < |t| && IsDigit(t[k]) && WholeEnd(t, k) == f
  {
    hide DigitsEnd;
    DigitsAre(t, k, f);
    if k < f {
      assert t[k..f][0] == t[k];
      if IsDigit(t[k]) {
        if t[k] == ZERO {
          assert f == k + 1 ==> t[k..f] == [ZERO];
        } else {
          DigitsAre(t, k, DigitsEnd(t, k));
          if AreDIGIT(t[k..f]) {
            DigitsEndIs(t, k, f);
          }
        }
      }
    }
  }

  lemma ExpIs(t: seq<byte>, x: nat)
    requires x <= |t|
    ensures RfcExponent(t, x) == Some(|t|) <==> x == |t| || IsExp(t[x..])
  {
    hide DigitsEnd;
    if x < |t| && IsExponentMark(t[x]) {
      var u := t[x..];
      var k := if x + 1 < |t| && (t[x + 1] == PLUS || t[x + 1] == MINUS) then x + 2 else x + 1;
      assert u[0] == t[x] && u[1..] == t[x + 1..|t|] && (x + 1 < |t| ==> u[1] == t[x + 1]);
      if x + 2 <= |t| {
        assert u[2..] == t[x + 2..|t|];
        DigitsAre(t, x + 2, |t|);
      }
      DigitsAre(t, x + 1, |t|);
      DigitsAre(t, k, DigitsEnd(t, k));
      if AreDIGIT(t[k..|t|]) {
        DigitsEndIs(t, k, |t|);
      }
    }
  }

  lemma FracIs(t: seq<byte>, f: nat, x: nat)
    requires f <= x <= |t| && (x < |t| ==> !IsDigit(t[x]))
    ensures IsFrac(t[f..x]) <==> f < x && t[f] == DOT && f + 1 < x && DigitsEnd(t, f + 1) == x
  {
    hide DigitsEnd;
    if f < x {
      assert t[f..x][0] == t[f] && t[f..x][1..] == t[f + 1..x];
      DigitsAre(t, f + 1, x);
      if f + 1 <= x && AreDIGIT(t[f + 1..x]) {
        DigitsEndIs(t, f + 1, x);
      }
      DigitsAre(t, f + 1, DigitsEnd(t, f + 1));
    }
  }

  /** The greedy reading of a number finds exactly the numbers of section 6. */
  lemma NumberIff(t: seq<byte>)
    ensures IsNumberText(t) <==> IsNumber(t)
  {
    hide IsInt, IsFrac, IsExp, WholeEnd, RfcExponent, DigitsEnd;
    var k := if t != [] && t[0] == MINUS then 1 else 0;
    if IsNumberText(t) {
      var f := WholeEnd(t, k);
      var x := if f < |t| && t[f] == DOT then DigitsEnd(t, f + 1) else f;
      ExpIs(t, x);
      ExpStarts(t, x);
      IntIs(t, k, f);
      FracIs(t, f, x);
      assert IsInt(t[k..f]);
    }
    if IsNumber(t) {
      var f, x :| k <= f <= x <= |t| && IsInt(t[k..f]) && (f == x || IsFrac(t[f..x])) && (x == |t| || IsExp(t[x..]));
      ExpIs(t, x);
      ExpStarts(t, x);
      FracStarts(t, f, x);
      FracIs(t, f, x);
      IntIs(t, k, f);
    }
  }

  /** What stands behind the digits of a number is no digit. */
  lemma ExpStarts(t: seq<byte>, x: nat)
    requires x <= |t|
    ensures x < |t| && IsExp(t[x..]) ==> IsExponentMark(t[x])
  {
  }

  lemma FracStarts(t: seq<byte>, f: nat, x: nat)
    requires f <= x <= |t|
    ensures f < x && IsFrac(t[f..x]) ==> t[f] == DOT
  {
  }

  // ---------- Strings ----------

  /** What stands between the quotes of a valid string are the units of section 7. */
  lemma BodyIff(b: seq<byte>)
    ensures IsStringBody(b) <==> exists us :: AreUnits(us) && UnitsText(us) == b
  {
    hide Decode, RawEnd, UnitsText, At;
    var t := b + [QUOTE];
    if RawEnd(t, 0).Some? && RawEnd(t, 0).value == |b| + 1 {
      var us := SomeUnits(t, 0);
      BeforeQuote(UnitsText(us), t, b);
    }
    forall us | AreUnits(us) && UnitsText(us) == b ensures RawEnd(t, 0) == Some(|b| + 1) {
      WholeText(t);
      ReadsAsMeant(us, t, 0);
      RawEndIffDecode(t, 0);
    }
  }

  lemma BeforeQuote(x: seq<byte>, t: seq<byte>, b: seq<byte>)
    requires At(t, 0, x + [QUOTE]) && t == b + [QUOTE] && |x| == |b|
    ensures x == b
  {
    assert t[0..|t|] == t;
    assert x == (x + [QUOTE])[..|x|] && b == (b + [QUOTE])[..|x|];
  }

  lemma WholeText(t: seq<byte>)
    ensures At(t, 0, t)
  {
    assert t[0..|t|] == t;
  }

  lemma StringIff(b: seq<byte>)
    ensures IsString(Quoted(b)) <==> IsStringBody(b)
  {
    hide IsStringBody, UnitsText;
    assert Quoted(b)[1..|Quoted(b)| - 1] == b;
    BodyIff(b);
  }

  // ---------- Every tree has a text of the grammar ----------

  lemma WsIff(w: seq<byte>)
    ensures IsWs(w) <==> IsSpace(w)
  {
  }

  lemma BetweenIs(open: byte, x: seq<byte>, close: byte)
    ensures var t := [open] + (x + [close]); IsBetween(open, t, close) && Inner(t) == x
  {
  }

  lemma ElementOf(before: seq<byte>, value: seq<byte>, after: seq<byte>)
    requires IsWs(before) && IsValue(value) && IsWs(after)
    ensures IsElement(before + (value + after))
  {
    hide IsValue, IsWs;
    var t := before + (value + after);
    var i, j := |before|, |before| + |value|;
    assert t[..i] == before && t[i..j] == value && t[j..] == after;
  }

  lemma MemberOf(before: seq<byte>, name: seq<byte>, colon: seq<byte>, element: seq<byte>)
    requires IsWs(before) && IsString(name) && IsWs(colon) && IsElement(element)
    ensures IsMember(before + (name + (colon + ([COLON] + element))))
  {
    hide IsString, IsWs, IsElement;
    MemberPieces(before, name, colon, element);
    var t := before + (name + (colon + ([COLON] + element)));
    var i := |before|;
    var j := i + |name|;
    var c := j + |colon|;
    assert IsMemberAt(t, i, j, c);
  }

  lemma MemberPieces(a: seq<byte>, b: seq<byte>, c: seq<byte>, e: seq<byte>)
    ensures var t := a + (b + (c + ([COLON] + e)));
      var i := |a|;
      var j := i + |b|;
      var k := j + |c|;
      && k < |t| && t[..i] == a && t[i..j] == b && t[j..k] == c && t[k] == COLON && t[k + 1..] == e
  {
    var z := [COLON] + e;
    var t := a + (b + (c + z));
    var i := |a|;
    var j := i + |b|;
    var k := j + |c|;
    Cut(a, b + (c + z));
    Cut(b, c + z);
    Cut(c, z);
    Cut([COLON], e);
    Slide(t, i, |b|);
    Slide(t, j, |c|);
    Slide(t, k, 1);
    assert t[k] == t[k..][0];
  }

  lemma Cut(a: seq<byte>, x: seq<byte>)
    ensures (a + x)[..|a|] == a && (a + x)[|a|..] == x
  {
  }

  lemma Slide(t: seq<byte>, i: nat, n: nat)
    requires i + n <= |t|
    ensures t[i..][..n] == t[i..i + n] && t[i..][n..] == t[i + n..]
  {
  }

  lemma AppendElements(x: seq<byte>, rest: seq<byte>)
    requires IsElement(x) && AreElements(rest)
    ensures AreElements(x + ([COMMA] + rest))
  {
    hide IsElement;
    var t := x + ([COMMA] + rest);
    assert t[..|x|] == x && t[|x|] == COMMA && t[|x| + 1..] == rest;
    assert AreElementsAt(t, |x|);
  }

  lemma AppendMembers(x: seq<byte>, rest: seq<byte>)
    requires IsMember(x) && AreMembers(rest)
    ensures AreMembers(x + ([COMMA] + rest))
  {
    hide IsMember;
    var t := x + ([COMMA] + rest);
    assert t[..|x|] == x && t[|x|] == COMMA && t[|x| + 1..] == rest;
    assert AreMembersAt(t, |x|);
  }

  /** The elements without the closing bracket, and the members without the closing brace. */
  function ItemsInner(items: Items): seq<byte> {
    match items
    case LastItem(before, value, after) => before + (Text(value) + after)
    case Item(before, value, after, rest) => before + (Text(value) + after) + ([COMMA] + ItemsInner(rest))
  }

  function MembersInner(members: Grammar.Members): seq<byte> {
    var element := members.middle + (Text(members.value) + members.after);
    var first := members.before + (NameText(members.name) + (members.colon + ([COLON] + element)));
    if members.LastMember? then first else first + ([COMMA] + MembersInner(members.rest))
  }

  lemma {:induction false} ItemsInnerIs(items: Items)
    ensures ItemsText(items) == ItemsInner(items) + [CLOSE_BRACKET]
    decreases items
  {
    hide Text;
    if items.Item? {
      ItemsInnerIs(items.rest);
      var a, b, c, r := items.before, Text(items.value), items.after, ItemsInner(items.rest);
      assert a + (b + (c + ([COMMA] + (r + [CLOSE_BRACKET])))) == a + (b + c) + ([COMMA] + r) + [CLOSE_BRACKET];
    }
  }

  lemma {:induction false} MembersInnerIs(members: Grammar.Members)
    ensures MembersText(members) == MembersInner(members) + [CLOSE_BRACE]
    decreases members
  {
    hide Text, NameText;
    var last := AfterMember(members);
    if members.Member? {
      MembersInnerIs(members.rest);
      assert last == [COMMA] + MembersInner(members.rest) + [CLOSE_BRACE];
    }
    MembersPieces(members.before, NameText(members.name), members.colon, members.middle, Text(members.value),
                  members.after, last);
  }

  lemma MembersPieces(
      a: seq<byte>, b: seq<byte>, c: seq<byte>, d: seq<byte>, e: seq<byte>, f: seq<byte>, last: seq<byte>)
    ensures a + (b + (c + ([COLON] + (d + (e + (f + last)))))) == a + (b + (c + ([COLON] + (d + (e + f))))) + last
  {
    assert d + (e + (f + last)) == d + (e + f) + last;
    assert [COLON] + (d + (e + f) + last) == [COLON] + (d + (e + f)) + last;
    assert c + ([COLON] + (d + (e + f)) + last) == c + ([COLON] + (d + (e + f))) + last;
  }

  lemma {:induction false} WellFormedIsValue(d: Doc)
    requires WellFormed(d)
    ensures IsValue(Text(d))
    decreases d, 1
  {
    hide IsNumber, IsString, IsNumberText, IsStringBody, AreElements, AreMembers, IsBetween, IsWs, IsSpace, Quoted;
    match d {
      case DNumber(text) => NumberIff(text);
      case DString(body) => StringIff(body);
      case DEmptyArray(space) =>
        WsIff(space);
        BetweenIs(OPEN_BRACKET, space, CLOSE_BRACKET);
      case DEmptyObject(space) =>
        WsIff(space);
        BetweenIs(OPEN_BRACE, space, CLOSE_BRACE);
      case DArray(items) =>
        ItemsAreElements(items);
        ItemsInnerIs(items);
        BetweenIs(OPEN_BRACKET, ItemsInner(items), CLOSE_BRACKET);
      case DObject(members) =>
        MembersAreMembers(members);
        MembersInnerIs(members);
        BetweenIs(OPEN_BRACE, MembersInner(members), CLOSE_BRACE);
      case _ =>
    }
  }

  lemma {:induction false} ItemsAreElements(items: Items)
    requires WellFormedItems(items)
    ensures AreElements(ItemsInner(items))
    decreases items, 0
  {
    hide IsElement, IsValue, IsWs, IsSpace, Text, WellFormed;
    WellFormedIsValue(items.value);
    WsIff(items.before);
    WsIff(items.after);
    var first := items.before + (Text(items.value) + items.after);
    ElementOf(items.before, Text(items.value), items.after);
    if items.Item? {
      ItemsAreElements(items.rest);
      AppendElements(first, ItemsInner(items.rest));
    }
  }

  lemma {:induction false} MembersAreMembers(members: Grammar.Members)
    requires WellFormedMembers(members)
    ensures AreMembers(MembersInner(members))
    decreases members, 0
  {
    hide IsElement, IsMember, IsValue, IsWs, IsSpace, Text, WellFormed, IsString, IsStringBody, Quoted;
    WellFormedIsValue(members.value);
    WsIff(members.before);
    WsIff(members.colon);
    WsIff(members.middle);
    WsIff(members.after);
    StringIff(members.name.text);
    var element := members.middle + (Text(members.value) + members.after);
    ElementOf(members.middle, Text(members.value), members.after);
    MemberOf(members.before, NameText(members.name), members.colon, element);
    if members.Member? {
      MembersAreMembers(members.rest);
      AppendMembers(members.before + (NameText(members.name) + (members.colon + ([COLON] + element))),
                    MembersInner(members.rest));
    }
  }

  // ---------- Every text of the grammar has a tree ----------

  lemma InnerIs(open: byte, t: seq<byte>, close: byte)
    requires IsBetween(open, t, close)
    ensures t == [open] + (Inner(t) + [close])
  {
  }

  lemma StringDoc(t: seq<byte>) returns (body: seq<byte>)
    requires IsString(t)
    ensures IsStringBody(body) && Quoted(body) == t
  {
    hide IsStringBody, UnitsText;
    body := t[1..|t| - 1];
    BodyIff(body);
  }

  lemma {:induction false} ValueDoc(t: seq<byte>) returns (d: Doc)
    requires IsValue(t)
    ensures WellFormed(d) && Text(d) == t
    decreases |t|, 2
  {
    hide IsNumber, IsString, IsNumberText, IsStringBody, AreElements, AreMembers, IsWs, IsSpace, Quoted, Inner,
         ItemsText, MembersText, WellFormedItems, WellFormedMembers;
    if IsNumber(t) {
      NumberIff(t);
      d := DNumber(t);
    } else if IsString(t) {
      var body := StringDoc(t);
      d := DString(body);
    } else if IsBetween(OPEN_BRACKET, t, CLOSE_BRACKET) {
      InnerIs(OPEN_BRACKET, t, CLOSE_BRACKET);
      if IsWs(Inner(t)) {
        WsIff(Inner(t));
        d := DEmptyArray(Inner(t));
      } else {
        var items := ElementsDoc(Inner(t));
        d := DArray(items);
      }
    } else if IsBetween(OPEN_BRACE, t, CLOSE_BRACE) {
      InnerIs(OPEN_BRACE, t, CLOSE_BRACE);
      if IsWs(Inner(t)) {
        WsIff(Inner(t));
        d := DEmptyObject(Inner(t));
      } else {
        var members := MembersDoc(Inner(t));
        d := DObject(members);
      }
    } else {
      d := if t[0] == LOWER_N then DNull else if t[0] == LOWER_T then DTrue else DFalse;
    }
  }

  lemma {:induction false} ElementDoc(t: seq<byte>) returns (before: seq<byte>, d: Doc, after: seq<byte>)
    requires IsElement(t)
    ensures IsSpace(before) && WellFormed(d) && IsSpace(after) && t == before + (Text(d) + after)
    decreases |t|, 3
  {
    hide IsValue, IsWs, IsSpace, WellFormed, Text;
    var i, j :| 0 <= i <= j <= |t| && IsWs(t[..i]) && IsValue(t[i..j]) && IsWs(t[j..]);
    before, after := t[..i], t[j..];
    d := ValueDoc(t[i..j]);
    WsIff(before);
    WsIff(after);
    assert t == t[..i] + (t[i..j] + t[j..]);
  }

  lemma {:induction false} ElementsDoc(t: seq<byte>) returns (items: Items)
    requires AreElements(t)
    ensures WellFormedItems(items) && ItemsText(items) == t + [CLOSE_BRACKET]
    decreases |t|, 4
  {
    hide IsElement, IsSpace, WellFormed, Text, ItemsText, ItemsInner;
    if IsElement(t) {
      var before, d, after := ElementDoc(t);
      items := LastItem(before, d, after);
      ItemsInnerIs(items);
      InnerOf(items);
    } else {
      var k: nat :| AreElementsAt(t, k);
      var before, d, after := ElementDoc(t[..k]);
      var rest := ElementsDoc(t[k + 1..]);
      items := Item(before, d, after, rest);
      ItemsInnerIs(items);
      ItemsInnerIs(rest);
      InnerOf(items);
      SameFront(ItemsInner(rest), t[k + 1..], CLOSE_BRACKET);
      CommaSplit(t, k);
    }
  }

  lemma InnerOf(items: Items)
    ensures ItemsInner(items) ==
            var first := items.before + (Text(items.value) + items.after);
            if items.LastItem? then first else first + ([COMMA] + ItemsInner(items.rest))
  {
    hide Text;
  }

  lemma CommaSplit(t: seq<byte>, k: nat)
    requires k < |t| && t[k] == COMMA
    ensures t == t[..k] + ([COMMA] + t[k + 1..])
  {
  }

  lemma SameFront(x: seq<byte>, y: seq<byte>, c: byte)
    requires x + [c] == y + [c]
    ensures x == y
  {
    assert |x| == |x + [c]| - 1 == |y|;
    assert x == (x + [c])[..|x|] && y == (y + [c])[..|x|];
  }

  lemma {:induction false} MemberDoc(t: seq<byte>)
    returns (before: seq<byte>, name: seq<byte>, colon: seq<byte>, middle: seq<byte>, d: Doc, after: seq<byte>)
    requires IsMember(t)
    ensures IsSpace(before) && IsStringBody(name) && IsSpace(colon) && IsSpace(middle)
    ensures WellFormed(d) && IsSpace(after)
    ensures t == before + (Quoted(name) + (colon + ([COLON] + (middle + (Text(d) + after)))))
    decreases |t|, 3
  {
    hide IsString, IsElement, IsWs, IsSpace, IsStringBody, WellFormed, Text, Quoted;
    var i: nat, j: nat, c: nat :| IsMemberAt(t, i, j, c);
    before, colon := t[..i], t[j..c];
    name := StringDoc(t[i..j]);
    middle, d, after := ElementDoc(t[c + 1..]);
    WsIff(before);
    WsIff(colon);
    assert t == t[..i] + (t[i..j] + (t[j..c] + ([COLON] + t[c + 1..])));
  }

  lemma {:induction false} MembersDoc(t: seq<byte>) returns (members: Grammar.Members)
    requires AreMembers(t)
    ensures WellFormedMembers(members) && MembersText(members) == t + [CLOSE_BRACE]
    decreases |t|, 4
  {
    hide IsMember, IsSpace, IsStringBody, WellFormed, Text, Quoted, MembersText, MembersInner;
    if IsMember(t) {
      var before, name, colon, middle, d, after := MemberDoc(t);
      members := LastMember(before, Body(name), colon, middle, d, after);
      MembersInnerIs(members);
      LastInner(members);
    } else {
      var k: nat :| AreMembersAt(t, k);
      var before, name, colon, middle, d, after := MemberDoc(t[..k]);
      var rest := MembersDoc(t[k + 1..]);
      members := Member(before, Body(name), colon, middle, d, after, rest);
      MembersInnerIs(rest);
      SameFront(MembersInner(rest), t[k + 1..], CLOSE_BRACE);
      MembersInnerIs(members);
      FirstAndRest(members, t[..k], t[k + 1..]);
      CommaSplit(t, k);
    }
  }

  lemma LastInner(members: Grammar.Members)
    requires members.LastMember?
    ensures MembersInner(members) ==
            members.before + (NameText(members.name) +
                              (members.colon + ([COLON] + (members.middle + (Text(members.value) + members.after)))))
  {
    hide Text, NameText;
  }

  lemma FirstAndRest(members: Grammar.Members, first: seq<byte>, rest: seq<byte>)
    requires members.Member? && MembersInner(members.rest) == rest
    requires first ==
      members.before + (NameText(members.name) +
                        (members.colon + ([COLON] + (members.middle + (Text(members.value) + members.after)))))
    ensures MembersInner(members) == first + ([COMMA] + rest)
  {
    hide Text, NameText;
  }

  /** The texts of the well-formed documents are the values of RFC 8259. */
  lemma JsonIff(t: seq<byte>)
    ensures IsJson(t) <==> IsValue(t)
  {
    hide IsValue, WellFormed, Text;
    if IsValue(t) {
      var d := ValueDoc(t);
    }
    forall d | WellFormed(d) && Text(d) == t ensures IsValue(t) {
      WellFormedIsValue(d);
    }
  }
}

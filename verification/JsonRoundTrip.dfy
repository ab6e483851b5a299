/** What fcgi/xml.c prints as JSON is read back as the value of the tree. */
module JsonRoundTrip {
  import opened Bignum
  import opened JsonReader
  import opened JsonText

  /** Where a value may end. */
  predicate Ends(rest: string) {
    rest == "" || rest[0] == ',' || rest[0] == ']' || rest[0] == '}'
  }

  lemma CharIsRead(c: char, rest: string)
    ensures ReadChar(Escaped(c) + rest) == Read(c, rest) && Escaped(c)[0] != '"'
  {
    var s := Escaped(c) + rest;
    if c == '"' || c == '\\' {
      assert s[1..] == [c] + rest;
    } else if c as int <= 0x1f {
      var a, b := Hex(c as int / 16), Hex(c as int % 16);
      assert s[1..] == "u00" + [a, b] + rest;
      assert s[1..][1..] == "00" + [a, b] + rest;
      assert HexValue(a) == c as int / 16 && HexValue(b) == c as int % 16;
      assert ("00" + [a, b] + rest)[4..] == rest;
    } else {
      assert s[1..] == rest;
    }
  }

  lemma CharThenChars(text: string, c: char, after: string, cs: string, rest: string)
    requires text != "" && text[0] != '"' && ReadChar(text) == Read(c, after) && ReadChars(after) == Read(cs, rest)
    ensures ReadChars(text) == Read([c] + cs, rest)
  {
  }

  lemma {:induction false} CharsAreRead(s: string, rest: string)
    ensures ReadChars(EscapedAll(s) + "\"" + rest) == Read(s, rest)
  {
    if s == "" {
      assert ("\"" + rest)[1..] == rest;
    } else {
      var after := EscapedAll(s[1..]) + "\"" + rest;
      assert EscapedAll(s) + "\"" + rest == Escaped(s[0]) + after;
      CharIsRead(s[0], after);
      CharsAreRead(s[1..], rest);
      CharThenChars(Escaped(s[0]) + after, s[0], after, s[1..], rest);
      assert [s[0]] + s[1..] == s;
    }
  }

  /** A control character is printed by its code, in two small hexadecimal digits. */
  lemma ControlIsPrinted(c: char)
    requires c as int <= 0x1f
    ensures var e := Escaped(c);
            && |e| == 6 && e[..4] == "\\u00" && 16 * HexValue(e[4]) + HexValue(e[5]) == c as int
            && ('0' <= e[4] <= '9' || 'a' <= e[4] <= 'f') && ('0' <= e[5] <= '9' || 'a' <= e[5] <= 'f')
  {
    assert Escaped(c) == "\\u00" + [Hex(c as int / 16), Hex(c as int % 16)];
  }

  /** A string is printed as it is exactly if it has no quotation mark, backslash or control character; those
      make it longer. */
  lemma {:induction false} PrintsAsIs(s: string)
    ensures |EscapedAll(s)| >= |s|
    ensures EscapedAll(s) == s <==> forall i :: 0 <= i < |s| ==> s[i] != '"' && s[i] != '\\' && s[i] as int > 0x1f
    ensures |EscapedAll(s)| == |s| <==> EscapedAll(s) == s
  {
    if s != "" {
      var rest := s[1..];
      PrintsAsIs(rest);
      assert s == [s[0]] + rest;
      if |Escaped(s[0])| == 1 {
        assert EscapedAll(s)[1..] == EscapedAll(rest);
      }
    }
  }

  lemma {:induction false} DigitsAreCounted(d: string, rest: string)
    requires IsDigits(d) && Ends(rest)
    ensures DigitCount(d + rest) == |d|
  {
    if d != "" {
      assert (d + rest)[1..] == d[1..] + rest;
      DigitsAreCounted(d[1..], rest);
    }
  }

  lemma DigitsAreRead(d: string, rest: string)
    requires Canonical(d) && Ends(rest)
    ensures ReadDigits(d + rest) == Read(Value(d), rest)
  {
    DigitsAreCounted(d, rest);
    assert (d + rest)[..|d|] == d && (d + rest)[|d|..] == rest;
  }

  lemma NumberIsRead(n: int, rest: string)
    requires Ends(rest)
    ensures ReadValue(IntText(n) + rest) == Read(Num(n), rest)
  {
    var k: nat := if n < 0 then -n else n;
    DecimalIsCanonical(k);
    DigitsAreRead(Decimal(k), rest);
    ReadDigitsStep(Decimal(k) + rest, k, rest);
    MinusFirst(Decimal(k), rest);
  }

  lemma MinusFirst(d: string, rest: string)
    ensures "-" + d + rest == "-" + (d + rest)
  {
  }

  lemma StringIsRead(s: string, rest: string, text: string)
    requires text == "\"" + EscapedAll(s) + "\"" + rest
    ensures ReadValue(text) == Read(Str(s), rest)
  {
    CharsAreRead(s, rest);
    assert text == "\"" + (EscapedAll(s) + "\"" + rest);
    ReadQuote(EscapedAll(s) + "\"" + rest, s, rest);
  }

  lemma ScalarIsRead(v: Scalar, rest: string)
    requires Ends(rest)
    ensures ReadValue(ScalarText(v) + rest) == Read(ScalarValue(v), rest)
  {
    match v
    case Integer(n) => NumberIsRead(n, rest);
    case Boolean(b) => ReadWords(rest);
    case String(c) =>
      if c.NULL? {
        ReadWords(rest);
      } else {
        StringIsRead(c.s, rest, ScalarText(v) + rest);
      }
  }

  // ----- items

  /** How the text of a value or a name starts: no white space, no closing bracket. */
  predicate Starts(s: string) {
    s != "" && !IsSpace(s[0]) && s[0] != ']' && s[0] != '}'
  }

  /** The text of the item is read as its value, whatever follows. */
  ghost predicate Reads(i: Item) {
    && Starts(i.text)
    && forall rest {:trigger ReadValue(i.text + rest)} :: Ends(rest) ==> ReadValue(i.text + rest) == Read(i.value, rest)
  }

  ghost predicate AllRead(items: seq<Item>) {
    forall i {:trigger Reads(items[i])} :: 0 <= i < |items| ==> Reads(items[i])
  }

  lemma FirstIsRead(items: seq<Item>, rest: string)
    requires AllRead(items) && items != [] && Ends(rest)
    ensures Starts(items[0].text) && AllRead(items[1..])
    ensures ReadValue(items[0].text + rest) == Read(items[0].value, rest)
  {
    assert Reads(items[0]);
    forall i | 0 <= i < |items[1..]| ensures Reads(items[1..][i]) {
      assert Reads(items[i + 1]);
    }
  }

  /** What follows an item: a comma or the closing bracket. */
  lemma AfterStarts(items: seq<Item>, close: string, rest: string)
    requires close == "]" || close == "}"
    ensures var after := MoreText(items) + close + rest;
            after != "" && (after[0] == ',' || after[0] == close[0]) && Ends(after)
  {
  }

  lemma Regroup(a: string, b: string, c: string, d: string)
    ensures a + b + c + d == a + (b + c + d)
    ensures "," + a + b + c + d == "," + (a + (b + c + d))
  {
  }

  lemma NextElement(text: string, value: Json, after: string, vs: seq<Json>, rest: string)
    requires after != "" && (after[0] == ',' || after[0] == ']')
    requires ReadValue(text + after) == Read(value, after) && ReadMoreElements(after) == Read(vs, rest)
    ensures ReadElements(text + after) == Read([value] + vs, rest)
  {
    ReadElementsStep(text + after, value, after, vs, rest);
  }

  predicate Bare(i: Item) {
    i.name.Anonymous?
  }

  /** The items of an array up to the bracket. */
  lemma {:induction false} ElementsAreRead(items: seq<Item>, rest: string, text: string)
    requires AllRead(items) && (forall i :: i in items ==> Bare(i)) && items != []
    requires text == JoinedText(items) + "]" + rest
    ensures ReadElements(text) == Read(ValuesOf(items), rest)
    decreases |items|, 0
  {
    var more := items[1..];
    var after := MoreText(more) + "]" + rest;
    AfterStarts(more, "]", rest);
    FirstIsRead(items, after);
    MoreElementsAreRead(more, rest, after);
    assert Bare(items[0]);
    Regroup(items[0].text, MoreText(more), "]", rest);
    assert FullText(items[0]) == items[0].text;
    NextElement(items[0].text, items[0].value, after, ValuesOf(more), rest);
  }

  /** The same behind another item. */
  lemma {:induction false} MoreElementsAreRead(items: seq<Item>, rest: string, text: string)
    requires AllRead(items) && (forall i :: i in items ==> Bare(i)) && text == MoreText(items) + "]" + rest
    ensures ReadMoreElements(text) == Read(ValuesOf(items), rest)
    decreases |items|, 1
  {
    if items == [] {
      ReadNothing(rest);
    } else {
      var joined := JoinedText(items) + "]" + rest;
      ElementsAreRead(items, rest, joined);
      CommaFirst(items, "]", rest);
      ReadComma(joined);
    }
  }

  lemma CommaFirst(items: seq<Item>, close: string, rest: string)
    requires items != []
    ensures MoreText(items) + close + rest == "," + (JoinedText(items) + close + rest)
  {
    Regroup(FullText(items[0]), MoreText(items[1..]), close, rest);
  }

  /** A named item, `member`, is read as a member. */
  lemma MemberIsRead(name: string, text: string, value: Json, rest: string, member: string)
    requires member == NameText(Named(Chars(name))) + text + rest
    requires ReadValue(text + rest) == Read(value, rest)
    ensures ReadMember(member) == Read(Member(name, value), rest)
  {
    var after := ":" + (text + rest);
    var chars := EscapedAll(name) + "\"" + after;
    CharsAreRead(name, after);
    ReadMemberStep(chars, name, text + rest, value, rest);
    MemberText(name, text, rest);
  }

  lemma MemberText(name: string, text: string, rest: string)
    ensures NameText(Named(Chars(name))) + text + rest == "\"" + (EscapedAll(name) + "\"" + (":" + (text + rest)))
  {
  }

  lemma NextMember(i: Item, after: string, ms: seq<Member>, rest: string, text: string)
    requires ProperlyNamed(i) && text == FullText(i) + after && after != "" && (after[0] == ',' || after[0] == '}')
    requires ReadValue(i.text + after) == Read(i.value, after) && ReadMoreMembers(after) == Read(ms, rest)
    ensures ReadMembers(text) == Read([MemberOf(i)] + ms, rest)
  {
    MemberIsRead(i.name.name.s, i.text, i.value, after, text);
    ReadMembersStep(text, MemberOf(i), after, ms, rest);
  }

  /** The items of an object up to the brace. */
  lemma {:induction false} MembersAreRead(items: seq<Item>, rest: string, text: string)
    requires AllRead(items) && (forall i :: i in items ==> ProperlyNamed(i)) && items != []
    requires text == JoinedText(items) + "}" + rest
    ensures ReadMembers(text) == Read(MembersOf(items), rest)
    decreases |items|, 0
  {
    var more := items[1..];
    var after := MoreText(more) + "}" + rest;
    AfterStarts(more, "}", rest);
    FirstIsRead(items, after);
    MoreMembersAreRead(more, rest, after);
    assert ProperlyNamed(items[0]);
    Regroup(FullText(items[0]), MoreText(more), "}", rest);
    NextMember(items[0], after, MembersOf(more), rest, text);
  }

  /** The same behind another item. */
  lemma {:induction false} MoreMembersAreRead(items: seq<Item>, rest: string, text: string)
    requires AllRead(items) && (forall i :: i in items ==> ProperlyNamed(i)) && text == MoreText(items) + "}" + rest
    ensures ReadMoreMembers(text) == Read(MembersOf(items), rest)
    decreases |items|, 1
  {
    if items == [] {
      ReadNothing(rest);
    } else {
      var joined := JoinedText(items) + "}" + rest;
      MembersAreRead(items, rest, joined);
      CommaFirst(items, "}", rest);
      ReadComma(joined);
    }
  }

  // ----- values

  lemma ArrayOfItems(items: seq<Item>, rest: string)
    requires AllRead(items) && forall i :: i in items ==> Bare(i)
    ensures ReadValue("[" + (JoinedText(items) + "]" + rest)) == Read(Arr(ValuesOf(items)), rest)
  {
    if items == [] {
      ReadNothing(rest);
    } else {
      var text := JoinedText(items) + "]" + rest;
      ElementsAreRead(items, rest, text);
      FirstIsRead(items, "");
      assert Bare(items[0]) && Starts(FullText(items[0]));
      JoinedStarts(items, "]", rest);
      ReadBracket(text, ValuesOf(items), rest);
    }
  }

  lemma ObjectOfItems(items: seq<Item>, rest: string)
    requires AllRead(items) && forall i :: i in items ==> ProperlyNamed(i)
    ensures ReadValue("{" + (JoinedText(items) + "}" + rest)) == Read(Obj(MembersOf(items)), rest)
  {
    if items == [] {
      ReadNothing(rest);
    } else {
      var text := JoinedText(items) + "}" + rest;
      MembersAreRead(items, rest, text);
      assert ProperlyNamed(items[0]) && Starts(FullText(items[0]));
      JoinedStarts(items, "}", rest);
      ReadBrace(text, MembersOf(items), rest);
    }
  }

  lemma JoinedStarts(items: seq<Item>, close: string, rest: string)
    requires items != [] && Starts(FullText(items[0]))
    ensures Starts(JoinedText(items) + close + rest)
  {
    assert (JoinedText(items) + close + rest)[0] == FullText(items[0])[0];
  }

  lemma ScalarStarts(v: Scalar)
    ensures Starts(ScalarText(v))
  {
    if v.Integer? {
      DecimalIsCanonical(if v.n < 0 then -v.n else v.n);
    }
  }

  lemma AttrReads(a: Attr)
    ensures Reads(AttrItem(a))
  {
    ScalarStarts(a.value);
    forall rest | Ends(rest) ensures ReadValue(ScalarText(a.value) + rest) == Read(ScalarValue(a.value), rest) {
      ScalarIsRead(a.value, rest);
    }
  }

  /** The items of a well-typed node are read back one by one. */
  lemma {:induction false} ItemsRead(n: Node)
    requires WellTyped(n)
    ensures AllRead(Items(n))
    decreases n, 0
  {
    var items := Items(n);
    forall i | 0 <= i < |items| ensures Reads(items[i]) {
      if i < |n.attrs| {
        AttrReads(n.attrs[i]);
      } else {
        ValueReads(n.children[i - |n.attrs|]);
      }
    }
  }

  lemma Brackets(open: string, joined: string, close: string, rest: string)
    ensures open + joined + close + rest == open + (joined + close + rest)
    ensures "" + joined + "" == joined
  {
  }

  /** Reading the text of a node gives its value and stops where the text stops. */
  lemma {:induction false} ValueReads(n: Node)
    requires WellTyped(n)
    ensures Reads(NodeItem(n))
    decreases n, 1
  {
    ItemsRead(n);
    var items := Items(n);
    if n.plainJson {
      PlainReads(n, items);
    } else {
      forall rest | Ends(rest) ensures ReadValue(ValueText(n) + rest) == Read(NodeValue(n), rest) {
        Brackets(Opening(n), JoinedText(items), Closing(n), rest);
        if n.childArray {
          ArrayOfItems(items, rest);
        } else {
          ObjectOfItems(items, rest);
        }
      }
    }
  }

  lemma PlainReads(n: Node, items: seq<Item>)
    requires n.plainJson && items == Items(n) && |items| == 1 && Bare(items[0]) && AllRead(items)
    ensures Reads(NodeItem(n))
  {
    assert Reads(items[0]);
    assert MoreText(items[1..]) == "";
    assert JoinedText(items) == items[0].text;
    Brackets("", items[0].text, "", "");
    assert NodeItem(n).text == items[0].text && NodeItem(n).value == items[0].value;
  }

  /** The text of a document is a JSON text for the value of its tree. */
  lemma DocumentIsRead(root: Node)
    requires WellTyped(root) && root.anonymousJson
    ensures ReadText(NodeText(root)) == Read(NodeValue(root), "")
  {
    ValueReads(root);
    var text := NodeItem(root).text;
    assert text + "" == text == NodeText(root);
    assert ReadValue(text + "") == Read(NodeValue(root), "");
  }
}

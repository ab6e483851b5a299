/** What fcgi/xml.c prints for a tree that mixes named and anonymous items is not JSON. */
module JsonIllTyped {
  import opened Bignum
  import opened JsonReader
  import opened JsonText
  import opened JsonRoundTrip

  /** Brackets are left out around no node of the tree. */
  predicate NoPlain(n: Node)
    decreases n
  {
    !n.plainJson && forall i :: 0 <= i < |n.children| ==> NoPlain(n.children[i])
  }

  /** The text of the item cannot be read, whatever follows. */
  ghost predicate Fails(i: Item) {
    forall rest {:trigger ReadValue(i.text + rest)} :: Ends(rest) ==> ReadValue(i.text + rest).Bad?
  }

  /** The text of the item is no member of an object. */
  ghost predicate NoMember(i: Item) {
    forall rest {:trigger ReadMember(i.text + rest)} :: Ends(rest) ==> ReadMember(i.text + rest).Bad?
  }

  ghost predicate Settled(i: Item) {
    Starts(i.text) && (Reads(i) || Fails(i)) && NoMember(i)
  }

  ghost predicate AllSettled(items: seq<Item>) {
    forall i {:trigger Settled(items[i])} :: 0 <= i < |items| ==> Settled(items[i])
  }

  // ----- one item that does not fit

  lemma NotAMember(text: string)
    requires text != "" && !IsSpace(text[0]) && text[0] != '"'
    ensures ReadMember(text).Bad? && ReadMembers(text).Bad?
  {}

  lemma NameIsRead(name: CString, rest: string)
    ensures ReadValue(StringText(name) + rest) == Read(if name.NULL? then Null else Str(name.s), rest)
  {
    if name.NULL? {
      ReadWords(rest);
    } else {
      StringIsRead(name.s, rest, StringText(name) + rest);
    }
  }

  /** A named item in an array. */
  lemma NamedElementFails(i: Item, after: string, text: string)
    requires i.name.Named? && text == FullText(i) + after
    ensures ReadElements(text).Bad?
  {
    var rest := ":" + (i.text + after);
    assert text == StringText(i.name.name) + rest;
    NameIsRead(i.name.name, rest);
  }

  /** An anonymous item, or one whose name is a null pointer, in an object. */
  lemma UnnamedMemberFails(i: Item, after: string, text: string)
    requires Settled(i) && !ProperlyNamed(i) && Ends(after) && text == FullText(i) + after
    ensures ReadMembers(text).Bad?
  {
    if i.name.Named? {
      NotAMember(text);
    } else {
      assert text == i.text + after;
    }
  }

  lemma StringIsNoMember(s: string, rest: string, text: string)
    requires text == "\"" + EscapedAll(s) + "\"" + rest && Ends(rest)
    ensures ReadMember(text).Bad?
  {
    CharsAreRead(s, rest);
    assert text[1..] == EscapedAll(s) + "\"" + rest;
  }

  lemma AttrSettled(a: Attr)
    ensures Settled(AttrItem(a))
  {
    AttrReads(a);
    var text := ScalarText(a.value);
    forall rest | Ends(rest) ensures ReadMember(text + rest).Bad? {
      if a.value.String? && a.value.str.Chars? {
        StringIsNoMember(a.value.str.s, rest, text + rest);
      } else {
        ScalarStarts(a.value);
        UnquotedScalar(a.value);
        NotAMember(text + rest);
      }
    }
  }

  lemma UnquotedScalar(v: Scalar)
    requires !(v.String? && v.str.Chars?)
    ensures ScalarText(v) != "" && ScalarText(v)[0] != '"'
  {
    if v.Integer? {
      DecimalIsCanonical(if v.n < 0 then -v.n else v.n);
    }
  }

  // ----- items with one among them that does not fit

  lemma FirstSettled(items: seq<Item>)
    requires AllSettled(items) && items != []
    ensures Settled(items[0]) && AllSettled(items[1..])
  {
    assert Settled(items[0]);
    forall i | 0 <= i < |items[1..]| ensures Settled(items[1..][i]) {
      assert Settled(items[i + 1]);
    }
  }

  predicate Misnamed(i: Item, inArray: bool) {
    if inArray then !Bare(i) else !ProperlyNamed(i)
  }

  /** One of the items has the wrong kind of name or cannot be read. */
  ghost predicate SomeWrong(items: seq<Item>, inArray: bool) {
    exists i {:trigger Misnamed(i, inArray)} :: i in items && (Misnamed(i, inArray) || Fails(i))
  }

  lemma WrongLater(items: seq<Item>, inArray: bool)
    requires SomeWrong(items, inArray) && !Misnamed(items[0], inArray) && !Fails(items[0])
    ensures items[1..] != [] && SomeWrong(items[1..], inArray)
  {
    var i :| i in items && (Misnamed(i, inArray) || Fails(i));
    assert items == [items[0]] + items[1..];
    assert i in items[1..] && (Misnamed(i, inArray) || Fails(i));
  }

  /** Reading an array stops at the first of them, */
  lemma {:induction false} ElementsFail(items: seq<Item>, rest: string, text: string)
    requires AllSettled(items) && SomeWrong(items, true) && text == JoinedText(items) + "]" + rest
    ensures ReadElements(text).Bad?
    decreases |items|
  {
    var i, more := items[0], items[1..];
    var after := MoreText(more) + "]" + rest;
    AfterStarts(more, "]", rest);
    FirstSettled(items);
    Regroup(FullText(i), MoreText(more), "]", rest);
    if Misnamed(i, true) {
      NamedElementFails(i, after, text);
    } else if Fails(i) {
      ElementFails(i, after, text);
    } else {
      WrongLater(items, true);
      var joined := JoinedText(more) + "]" + rest;
      ElementsFail(more, rest, joined);
      CommaFirst(more, "]", rest);
      ReadComma(joined);
      ElementThenBad(i, after, text);
    }
  }

  lemma ElementFails(i: Item, after: string, text: string)
    requires Bare(i) && Fails(i) && Ends(after) && text == FullText(i) + after
    ensures ReadElements(text).Bad?
  {
    assert FullText(i) == i.text;
    assert ReadValue(i.text + after).Bad?;
  }

  lemma ElementThenBad(i: Item, after: string, text: string)
    requires Bare(i) && Reads(i) && Ends(after) && text == FullText(i) + after && ReadMoreElements(after).Bad?
    ensures ReadElements(text).Bad?
  {
    assert FullText(i) == i.text;
    assert ReadValue(i.text + after) == Read(i.value, after);
    assert SkipSpace(after) == after;
  }

  /** and so does reading an object. */
  lemma {:induction false} MembersFail(items: seq<Item>, rest: string, text: string)
    requires AllSettled(items) && SomeWrong(items, false) && text == JoinedText(items) + "}" + rest
    ensures ReadMembers(text).Bad?
    decreases |items|
  {
    var i, more := items[0], items[1..];
    var after := MoreText(more) + "}" + rest;
    AfterStarts(more, "}", rest);
    FirstSettled(items);
    Regroup(FullText(i), MoreText(more), "}", rest);
    assert text == FullText(i) + after;
    if Misnamed(i, false) {
      UnnamedMemberFails(i, after, text);
    } else if Fails(i) {
      MemberFails(i, after, text);
    } else {
      WrongLater(items, false);
      var joined := JoinedText(more) + "}" + rest;
      MembersFail(more, rest, joined);
      CommaFirst(more, "}", rest);
      ReadComma(joined);
      MemberThenBad(i, after, text);
    }
  }

  lemma MemberFails(i: Item, after: string, text: string)
    requires ProperlyNamed(i) && Fails(i) && Ends(after) && text == FullText(i) + after
    ensures ReadMembers(text).Bad?
  {
    var rest := ":" + (i.text + after);
    var chars := EscapedAll(i.name.name.s) + "\"" + rest;
    CharsAreRead(i.name.name.s, rest);
    MemberText(i.name.name.s, i.text, after);
    assert ReadValue(i.text + after).Bad?;
    BadMember(chars, i.name.name.s, i.text + after);
    assert text == "\"" + chars;
  }

  lemma BadMember(s: string, name: string, after: string)
    requires ReadChars(s) == Read(name, ":" + after) && ReadValue(after).Bad?
    ensures ReadMember("\"" + s).Bad? && ReadMembers("\"" + s).Bad?
  {
    assert ("\"" + s)[1..] == s && (":" + after)[1..] == after;
  }

  lemma MemberThenBad(i: Item, after: string, text: string)
    requires ProperlyNamed(i) && Reads(i) && Ends(after) && text == FullText(i) + after
    requires ReadMoreMembers(after).Bad?
    ensures ReadMembers(text).Bad?
  {
    assert ReadValue(i.text + after) == Read(i.value, after);
    MemberIsRead(i.name.name.s, i.text, i.value, after, text);
    BadAfterMember(text, MemberOf(i), after);
  }

  lemma BadAfterMember(text: string, m: Member, after: string)
    requires ReadMember(text) == Read(m, after) && Ends(after) && ReadMoreMembers(after).Bad?
    ensures ReadMembers(text).Bad?
  {
    assert SkipSpace(after) == after;
  }

  // ----- nodes

  lemma ItemsFail(items: seq<Item>, inArray: bool, rest: string)
    requires AllSettled(items) && SomeWrong(items, inArray)
    ensures inArray ==> ReadValue("[" + (JoinedText(items) + "]" + rest)).Bad?
    ensures !inArray ==> ReadValue("{" + (JoinedText(items) + "}" + rest)).Bad?
  {
    FirstSettled(items);
    assert Starts(FullText(items[0]));
    if inArray {
      var text := JoinedText(items) + "]" + rest;
      ElementsFail(items, rest, text);
      JoinedStarts(items, "]", rest);
      assert ("[" + text)[1..] == text;
    } else {
      var text := JoinedText(items) + "}" + rest;
      MembersFail(items, rest, text);
      JoinedStarts(items, "}", rest);
      assert ("{" + text)[1..] == text;
    }
  }

  lemma NodeStarts(n: Node)
    requires !n.plainJson
    ensures Starts(ValueText(n)) && NoMember(NodeItem(n))
  {
    forall rest | Ends(rest) ensures ReadMember(ValueText(n) + rest).Bad? {
      NotAMember(ValueText(n) + rest);
    }
  }

  lemma {:induction false} ItemsSettled(n: Node)
    requires NoPlain(n)
    ensures AllSettled(Items(n))
    decreases n, 0
  {
    var items := Items(n);
    forall i | 0 <= i < |items| ensures Settled(items[i]) {
      if i < |n.attrs| {
        AttrSettled(n.attrs[i]);
      } else {
        NodeSettled(n.children[i - |n.attrs|]);
      }
    }
  }

  /** The text of a node is read as its value or not at all. */
  lemma {:induction false} NodeSettled(n: Node)
    requires NoPlain(n)
    ensures Settled(NodeItem(n)) && (WellTyped(n) ==> Reads(NodeItem(n))) && (!WellTyped(n) ==> Fails(NodeItem(n)))
    decreases n, 1
  {
    NodeStarts(n);
    if WellTyped(n) {
      ValueReads(n);
    } else {
      var items := Items(n);
      ItemsSettled(n);
      WrongItem(n);
      forall rest | Ends(rest) ensures ReadValue(ValueText(n) + rest).Bad? {
        Brackets(Opening(n), JoinedText(items), Closing(n), rest);
        ItemsFail(items, n.childArray, rest);
      }
    }
  }

  lemma {:induction false} WrongItem(n: Node)
    requires NoPlain(n) && !WellTyped(n)
    ensures SomeWrong(Items(n), n.childArray)
    decreases n, 0
  {
    var items := Items(n);
    if i :| 0 <= i < |n.children| && !WellTyped(n.children[i]) {
      NodeSettled(n.children[i]);
      ChildAt(n, i);
      WrongAt(items, |n.attrs| + i, n.childArray);
    } else {
      MisnamedItem(n, items);
    }
  }

  lemma WrongAt(items: seq<Item>, k: nat, inArray: bool)
    requires k < |items| && (Misnamed(items[k], inArray) || Fails(items[k]))
    ensures SomeWrong(items, inArray)
  {
    assert items[k] in items;
    assert Misnamed(items[k], inArray) || Fails(items[k]);
  }

  lemma MisnamedItem(n: Node, items: seq<Item>)
    requires items == Items(n) && !n.plainJson && !WellTyped(n)
    requires forall i :: 0 <= i < |n.children| ==> WellTyped(n.children[i])
    ensures SomeWrong(items, n.childArray)
  {
    var k :| 0 <= k < |items| && !(if n.childArray then items[k].name.Anonymous? else ProperlyNamed(items[k]));
    WrongAt(items, k, n.childArray);
  }

  /** The text of a document without plain nodes is JSON exactly if the document is well typed and its root has no
      name. */
  lemma DocumentIff(root: Node)
    requires NoPlain(root)
    ensures ReadText(NodeText(root)).Read? <==> WellTyped(root) && root.anonymousJson
  {
    NodeSettled(root);
    if root.anonymousJson {
      TextSettled(NodeItem(root), WellTyped(root));
    } else {
      NamedText(root.name, NodeItem(root).text);
    }
  }

  lemma TextSettled(i: Item, fits: bool)
    requires i.name.Anonymous? && (if fits then Reads(i) else Fails(i))
    ensures ReadText(FullText(i)).Read? <==> fits
  {
    assert i.text + "" == i.text == FullText(i);
    assert if fits then ReadValue(i.text + "") == Read(i.value, "") else ReadValue(i.text + "").Bad?;
  }

  /** A text that starts with a name is none. */
  lemma NamedText(name: CString, text: string)
    ensures ReadText(NameText(Named(name)) + text).Bad?
  {
    var rest := ":" + text;
    NameIsRead(name, rest);
    assert NameText(Named(name)) + text == StringText(name) + rest;
  }
}

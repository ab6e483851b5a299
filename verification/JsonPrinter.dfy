/** The printer of fcgi/xml.c: recursion over the tree that writes to standard output. */
module JsonPrinter {
  import opened Bignum
  import opened JsonText

  /** The first `k` items, each with the comma the printer puts after it. */
  function Printed(items: seq<string>, k: nat): string
    requires k <= |items|
  {
    if k == 0 then "" else Printed(items, k - 1) + items[k - 1] + (if k < |items| then "," else "")
  }

  /** The items as they are printed. */
  function FullTexts(items: seq<Item>): (texts: seq<string>)
    ensures |texts| == |items|
  {
    seq(|items|, i requires 0 <= i < |items| => FullText(items[i]))
  }

  /** Putting a comma after every item but the last is putting one before every item but the first: what is
      printed of the first `k`, and the others joined, are all of them joined. */
  lemma {:induction false} PrintedIsJoined(items: seq<Item>, texts: seq<string>, k: nat)
    requires texts == FullTexts(items) && k <= |items|
    ensures JoinedText(items) == Printed(texts, k) + JoinedText(items[k..])
  {
    if k == 0 {
      assert items[0..] == items;
      EmptyFirst(JoinedText(items));
    } else {
      var rest := items[k..];
      PrintedIsJoined(items, texts, k - 1);
      assert items[k - 1..][1..] == rest && items[k - 1..][0] == items[k - 1];
      MoreIsJoined(rest);
      MoveComma(Printed(texts, k - 1), texts[k - 1], if rest == [] then "" else ",", JoinedText(rest));
    }
  }

  lemma MoreIsJoined(items: seq<Item>)
    ensures MoreText(items) == (if items == [] then "" else ",") + JoinedText(items)
  {
    if items != [] {
      MoveComma("", ",", FullText(items[0]), MoreText(items[1..]));
    }
  }

  lemma MoveComma(a: string, b: string, c: string, d: string)
    ensures a + (b + (c + d)) == a + b + c + d && b + (c + d) == b + c + d
  {
  }

  lemma EmptyFirst(a: string)
    ensures "" + a == a && a + "" == a
  {
  }

  lemma AllPrinted(items: seq<Item>)
    ensures Printed(FullTexts(items), |items|) == JoinedText(items)
  {
    PrintedIsJoined(items, FullTexts(items), |items|);
    assert items[|items|..] == [];
    EmptyFirst(Printed(FullTexts(items), |items|));
  }

  /** Printing one item and its comma. */
  lemma PrintedNext(items: seq<string>, k: nat, before: string)
    requires k < |items|
    ensures before + Printed(items, k + 1)
         == before + Printed(items, k) + items[k] + (if k + 1 < |items| then "," else "")
  {
    NextPart(before, Printed(items, k), items[k], if k + 1 < |items| then "," else "");
  }

  lemma NextPart(a: string, b: string, c: string, d: string)
    ensures a + (b + c + d) == a + b + c + d
  {
  }

  lemma NodeTextParts(n: Node, before: string)
    ensures before + NodeText(n) == before + NameText(NodeName(n)) + Opening(n) + JoinedText(Items(n)) + Closing(n)
  {
    var name, open, items, close := NameText(NodeName(n)), Opening(n), JoinedText(Items(n)), Closing(n);
    assert NodeText(n) == name + ValueText(n) && ValueText(n) == open + items + close;
    Parts(before, name, open, items, close);
  }

  lemma Parts(a: string, b: string, c: string, d: string, e: string)
    ensures a + (b + (c + d + e)) == a + b + c + d + e
  {
  }

  lemma TextsOf(n: Node, texts: seq<string>)
    requires texts == FullTexts(Items(n))
    ensures |texts| == |n.attrs| + |n.children|
    ensures forall i :: 0 <= i < |n.attrs| ==> texts[i] == FullText(AttrItem(n.attrs[i]))
    ensures forall i :: 0 <= i < |n.children| ==> texts[|n.attrs| + i] == NodeText(n.children[i])
  {
    forall i | 0 <= i < |n.attrs| ensures texts[i] == FullText(AttrItem(n.attrs[i])) {
      AttrAt(n, i);
    }
    forall i | 0 <= i < |n.children| ensures texts[|n.attrs| + i] == NodeText(n.children[i]) {
      ChildAt(n, i);
    }
  }

  lemma EscapedStep(s: string, i: nat, done: string)
    requires i < |s|
    ensures done + EscapedAll(s[i..]) == done + Escaped(s[i]) + EscapedAll(s[i + 1..])
  {
    assert s[i..][1..] == s[i + 1..];
  }

  /** Standard output. */
  class Output {
    var text: string

    /** `printf` and `putchar` */
    method Put(s: string)
      modifies this
      ensures text == old(text) + s
    {
      text := text + s;
    }

    /** `_json_string` */
    method EscapeString(s: string)
      modifies this
      ensures text == old(text) + EscapedAll(s)
    {
      var i := 0;
      assert s[0..] == s;
      while i < |s|
        invariant i <= |s| && text + EscapedAll(s[i..]) == old(text) + EscapedAll(s)
      {
        var c := s[i];
        EscapedStep(s, i, text);
        if c == '"' {
          Put("\\\"");
        } else if c == '\\' {
          Put("\\\\");
        } else if c as int <= 0x1f {
          Put("\\u00" + [Hex(c as int / 16), Hex(c as int % 16)]);
        } else {
          Put([c]);
        }
        i := i + 1;
      }
    }

    /** `json_string` */
    method JsonString(s: CString)
      modifies this
      ensures text == old(text) + StringText(s)
    {
      match s {
        case Chars(cs) =>
          Put("\"");
          EscapeString(cs);
          Put("\"");
        case NULL =>
          Put("null");
      }
    }

    /** `json_print_attr` */
    method PrintAttr(a: Attr, ghost out: string)
      requires out == FullText(AttrItem(a))
      modifies this
      ensures text == old(text) + out
    {
      if a.name != NULL {
        JsonString(a.name);
        Put(":");
      }
      PrintScalar(a.value);
    }

    /** The branches of `json_print_attr`, by type. */
    method PrintScalar(v: Scalar)
      modifies this
      ensures text == old(text) + ScalarText(v)
    {
      match v {
        case Integer(n) =>
          Put(IntText(n));
        case Boolean(b) =>
          if b {
            Put("true");
          } else {
            Put("false");
          }
        case String(s) =>
          JsonString(s);
      }
    }

    /** An item is followed by a comma unless it is the last. */
    method PutComma(more: bool)
      modifies this
      ensures text == old(text) + if more then "," else ""
    {
      if more {
        Put(",");
      }
    }

    /** The loop of `_print_as_json` over the attributes. */
    method PrintAttrs(n: Node, ghost texts: seq<string>)
      requires |texts| == |n.attrs| + |n.children|
      requires forall i :: 0 <= i < |n.attrs| ==> texts[i] == FullText(AttrItem(n.attrs[i]))
      modifies this
      ensures text == old(text) + Printed(texts, |n.attrs|)
    {
      ghost var before := text;
      for i := 0 to |n.attrs|
        invariant text == before + Printed(texts, i)
      {
        PrintedNext(texts, i, before);
        PrintItem(n.attrs[i], i + 1 < |n.attrs| || n.children != [], texts[i]);
      }
    }

    /** An attribute and its comma. */
    method PrintItem(a: Attr, more: bool, ghost out: string)
      requires out == FullText(AttrItem(a))
      modifies this
      ensures text == old(text) + out + if more then "," else ""
    {
      PrintAttr(a, out);
      PutComma(more);
    }

    /** The loop of `_print_as_json` over the children, the last of the items. */
    method PrintChildren(n: Node, ghost texts: seq<string>, ghost before: string)
      requires |texts| == |n.attrs| + |n.children| && text == before + Printed(texts, |n.attrs|)
      requires forall i :: 0 <= i < |n.children| ==> texts[|n.attrs| + i] == NodeText(n.children[i])
      modifies this
      ensures text == before + Printed(texts, |texts|)
      decreases n, 0
    {
      ghost var k := |n.attrs|;
      for i := 0 to |n.children|
        invariant k == |n.attrs| + i && text == before + Printed(texts, k)
      {
        PrintedNext(texts, k, before);
        PrintAsJson(n.children[i], texts[k]);
        PutComma(i + 1 < |n.children|);
        k := k + 1;
      }
    }

    /** `_print_as_json`; `out` is what it prints. */
    method PrintAsJson(n: Node, ghost out: string)
      requires out == NodeText(n)
      modifies this
      ensures text == old(text) + out
      decreases n, 1, 1
    {
      NodeTextParts(n, text);
      if !n.anonymousJson {
        JsonString(n.name);
        Put(":");
      }
      assert text == old(text) + NameText(NodeName(n));
      if !n.plainJson {
        Put(if n.childArray then "[" else "{");
      }
      assert text == old(text) + NameText(NodeName(n)) + Opening(n);
      PrintItems(n, Items(n));
      if !n.plainJson {
        Put(if n.childArray then "]" else "}");
      }
    }

    /** The attributes and the children. */
    method PrintItems(n: Node, ghost items: seq<Item>)
      requires items == Items(n)
      modifies this
      ensures text == old(text) + JoinedText(items)
      decreases n, 1, 0
    {
      ghost var before, texts := text, FullTexts(items);
      TextsOf(n, texts);
      AllPrinted(items);
      PrintAttrs(n, texts);
      PrintChildren(n, texts, before);
    }
  }
}

/** What the text printed for a document says, told from the fields of the tree alone: the names and values that
    attributes and nodes carry. */
module JsonTree {
  import opened JsonReader
  import opened JsonText
  import opened JsonRoundTrip
  import opened JsonIllTyped

  // ----- which trees

  /** Attributes and children of an array have no names in the text, those of an object have proper ones. */
  predicate ItemsFit(n: Node) {
    if n.childArray then
      && (forall i :: 0 <= i < |n.attrs| ==> n.attrs[i].name == NULL)
      && (forall i :: 0 <= i < |n.children| ==> n.children[i].anonymousJson)
    else
      && (forall i :: 0 <= i < |n.attrs| ==> n.attrs[i].name != NULL)
      && (forall i :: 0 <= i < |n.children| ==> !n.children[i].anonymousJson && n.children[i].name != NULL)
  }

  /** A node printed without brackets has one attribute or one child, without a name. */
  predicate PlainFits(n: Node) {
    if |n.attrs| == 1 then n.children == [] && n.attrs[0].name == NULL
    else n.attrs == [] && |n.children| == 1 && n.children[0].anonymousJson
  }

  predicate TreeFits(n: Node)
    decreases n
  {
    && (if n.plainJson then PlainFits(n) else ItemsFit(n))
    && (forall i :: 0 <= i < |n.children| ==> TreeFits(n.children[i]))
  }

  // ----- what they mean

  predicate SaysScalar(v: Scalar, j: Json) {
    match v
    case Integer(n) => j == Num(n)
    case Boolean(b) => j == Bool(b)
    case String(NULL) => j == Null
    case String(Chars(s)) => j == Str(s)
  }

  /** The members of an object: the attributes under their names, then the children under theirs. */
  predicate SaysObject(n: Node, ms: seq<Member>)
    decreases n, 0
  {
    && |ms| == |n.attrs| + |n.children|
    && (forall i :: 0 <= i < |n.attrs| ==>
          n.attrs[i].name == Chars(ms[i].name) && SaysScalar(n.attrs[i].value, ms[i].value))
    && (forall i :: 0 <= i < |n.children| ==>
          var m := ms[|n.attrs| + i]; n.children[i].name == Chars(m.name) && Says(n.children[i], m.value))
  }

  /** The elements of an array, in the same order. */
  predicate SaysArray(n: Node, es: seq<Json>)
    decreases n, 0
  {
    && |es| == |n.attrs| + |n.children|
    && (forall i :: 0 <= i < |n.attrs| ==> SaysScalar(n.attrs[i].value, es[i]))
    && (forall i :: 0 <= i < |n.children| ==> Says(n.children[i], es[|n.attrs| + i]))
  }

  predicate Says(n: Node, j: Json)
    decreases n, 1
  {
    if n.plainJson then
      if |n.attrs| == 1 then SaysScalar(n.attrs[0].value, j)
      else |n.children| == 1 && Says(n.children[0], j)
    else if n.childArray then j.Arr? && SaysArray(n, j.elements)
    else j.Obj? && SaysObject(n, j.members)
  }

  // ----- the text says it

  lemma ItemsAre(n: Node)
    ensures forall i :: 0 <= i < |n.attrs| ==> Items(n)[i] == AttrItem(n.attrs[i])
    ensures forall i :: 0 <= i < |n.children| ==> Items(n)[|n.attrs| + i] == NodeItem(n.children[i])
  {}

  lemma ItemsFitIff(n: Node)
    ensures !n.plainJson ==> (ItemsFit(n) <==>
              forall i :: i in Items(n) ==> if n.childArray then i.name.Anonymous? else ProperlyNamed(i))
  {
    ItemsAre(n);
    var items := Items(n);
    if !n.plainJson && ItemsFit(n) {
      forall i | i in items ensures if n.childArray then i.name.Anonymous? else ProperlyNamed(i) {
        var k :| 0 <= k < |items| && items[k] == i;
        if k >= |n.attrs| {
          assert items[k] == NodeItem(n.children[k - |n.attrs|]);
        }
      }
    }
    if !n.plainJson && forall i :: i in items ==> if n.childArray then i.name.Anonymous? else ProperlyNamed(i) {
      forall i | 0 <= i < |n.attrs| ensures (n.attrs[i].name == NULL) == n.childArray {
        assert items[i] in items;
      }
      forall i | 0 <= i < |n.children|
        ensures if n.childArray then n.children[i].anonymousJson
                else !n.children[i].anonymousJson && n.children[i].name != NULL
      {
        assert items[|n.attrs| + i] in items;
      }
    }
  }

  lemma PlainFitsIff(n: Node)
    ensures n.plainJson ==> (PlainFits(n) <==>
              |Items(n)| == 1 && forall i :: i in Items(n) ==> i.name.Anonymous?)
  {
    ItemsAre(n);
    var items := Items(n);
    if |items| == 1 {
      assert items[0] in items && forall i :: i in items ==> i == items[0];
      if |n.attrs| == 0 {
        assert items[0] == NodeItem(n.children[0]);
      }
    }
  }

  lemma {:induction false} TreeFitsIff(n: Node)
    ensures TreeFits(n) <==> WellTyped(n)
    decreases n
  {
    ItemsFitIff(n);
    PlainFitsIff(n);
    forall i | 0 <= i < |n.children| ensures TreeFits(n.children[i]) <==> WellTyped(n.children[i]) {
      TreeFitsIff(n.children[i]);
    }
  }

  lemma {:induction false} ValuesAt(items: seq<Item>)
    ensures |ValuesOf(items)| == |MembersOf(items)| == |items|
    ensures forall i :: 0 <= i < |items| ==>
              ValuesOf(items)[i] == items[i].value && MembersOf(items)[i] == MemberOf(items[i])
  {
    if items != [] {
      ValuesAt(items[1..]);
    }
  }

  lemma ScalarSays(v: Scalar)
    ensures SaysScalar(v, ScalarValue(v))
  {}

  lemma {:induction false} ValueSays(n: Node)
    requires TreeFits(n)
    ensures Says(n, NodeValue(n))
    decreases n
  {
    var items := Items(n);
    ItemsAre(n);
    ValuesAt(items);
    forall i | 0 <= i < |n.attrs| ensures SaysScalar(n.attrs[i].value, items[i].value) {
      ScalarSays(n.attrs[i].value);
    }
    forall i | 0 <= i < |n.children| ensures Says(n.children[i], items[|n.attrs| + i].value) {
      ValueSays(n.children[i]);
      assert items[|n.attrs| + i] == NodeItem(n.children[i]);
    }
    if n.plainJson {
    } else if n.childArray {
      assert SaysArray(n, ValuesOf(items));
    } else {
      assert SaysObject(n, MembersOf(items));
    }
  }

  /** The text of a document whose tree fits is JSON, and what is read from it is what the tree says: every attribute
      and child under its own name, with its own value, in order. */
  lemma DocumentSays(root: Node)
    requires TreeFits(root) && root.anonymousJson
    ensures ReadText(NodeText(root)).Read? && Says(root, ReadText(NodeText(root)).value)
  {
    TreeFitsIff(root);
    DocumentIsRead(root);
    ValueSays(root);
  }

  /** Without plain nodes it is JSON exactly then. */
  lemma DocumentFitsIff(root: Node)
    requires NoPlain(root)
    ensures ReadText(NodeText(root)).Read? <==> TreeFits(root) && root.anonymousJson
  {
    TreeFitsIff(root);
    DocumentIff(root);
  }

  /** A document has only one meaning. */
  lemma {:induction false} SaysOne(n: Node, j: Json, k: Json)
    requires Says(n, j) && Says(n, k)
    ensures j == k
    decreases n
  {
    if n.plainJson {
      if |n.attrs| != 1 {
        SaysOne(n.children[0], j, k);
      }
    } else if n.childArray {
      forall i | 0 <= i < |j.elements| ensures j.elements[i] == k.elements[i] {
        if i >= |n.attrs| {
          var c := i - |n.attrs|;
          assert Says(n.children[c], j.elements[|n.attrs| + c]) && Says(n.children[c], k.elements[|n.attrs| + c]);
          SaysOne(n.children[c], j.elements[i], k.elements[i]);
        } else {
          assert SaysScalar(n.attrs[i].value, j.elements[i]) && SaysScalar(n.attrs[i].value, k.elements[i]);
        }
      }
      assert j.elements == k.elements;
    } else {
      forall i | 0 <= i < |j.members| ensures j.members[i] == k.members[i] {
        if i >= |n.attrs| {
          var c := i - |n.attrs|;
          var a, b := j.members[|n.attrs| + c], k.members[|n.attrs| + c];
          assert Says(n.children[c], a.value) && Says(n.children[c], b.value);
          SaysOne(n.children[c], a.value, b.value);
        } else {
          assert SaysScalar(n.attrs[i].value, j.members[i].value) && SaysScalar(n.attrs[i].value, k.members[i].value);
        }
      }
      assert j.members == k.members;
    }
  }
}

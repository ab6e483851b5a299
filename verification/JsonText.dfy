/** The JSON side of fcgi/xml.c: the document tree, the text printed for it and the value it stands for.
    Strings hold the characters before the terminating NUL, in UTF-8. */
module JsonText {
  import opened Bignum
  import opened JsonReader

  /** A `const char *`. */
  datatype CString = NULL | Chars(s: string)

  /** The name printed before an item. */
  datatype Name = Anonymous | Named(name: CString)

  datatype Scalar = String(str: CString) | Integer(n: int) | Boolean(b: bool)

  datatype Attr = Attr(name: CString, value: Scalar)

  /** `xml_node_t` with its type flags. */
  datatype Node = Node(name: CString, childArray: bool, anonymousJson: bool, plainJson: bool,
                       attrs: seq<Attr>, children: seq<Node>)

  // ----- the text of a scalar

  function Hex(d: nat): char
    requires d < 16
  {
    "0123456789abcdef"[d]
  }

  /** One character of `_json_string`. */
  function Escaped(c: char): (e: string) {
    if c == '"' then "\\\""
    else if c == '\\' then "\\\\"
    else if c as int <= 0x1f then "\\u00" + [Hex(c as int / 16), Hex(c as int % 16)]
    else [c]
  }

  function EscapedAll(s: string): string {
    if s == "" then "" else Escaped(s[0]) + EscapedAll(s[1..])
  }

  function StringText(s: CString): string {
    if s.NULL? then "null" else "\"" + EscapedAll(s.s) + "\""
  }

  /** `%d` */
  function IntText(n: int): string {
    if n < 0 then "-" + Decimal(-n) else Decimal(n)
  }

  function ScalarText(v: Scalar): string {
    match v
    case String(s) => StringText(s)
    case Integer(n) => IntText(n)
    case Boolean(b) => if b then "true" else "false"
  }

  function ScalarValue(v: Scalar): Json {
    match v
    case String(s) => if s.NULL? then Null else Str(s.s)
    case Integer(n) => Num(n)
    case Boolean(b) => Bool(b)
  }

  // ----- items

  /** An attribute or a child, as it is printed and as it is meant. */
  datatype Item = Item(name: Name, text: string, value: Json)

  function NameText(name: Name): string {
    if name.Anonymous? then "" else StringText(name.name) + ":"
  }

  function FullText(i: Item): string {
    NameText(i.name) + i.text
  }

  /** The items, each after a comma. */
  function MoreText(items: seq<Item>): string {
    if items == [] then "" else "," + FullText(items[0]) + MoreText(items[1..])
  }

  /** The items with commas between them. */
  function JoinedText(items: seq<Item>): string {
    if items == [] then "" else FullText(items[0]) + MoreText(items[1..])
  }

  function ValuesOf(items: seq<Item>): seq<Json> {
    if items == [] then [] else [items[0].value] + ValuesOf(items[1..])
  }

  function MembersOf(items: seq<Item>): seq<Member> {
    if items == [] then [] else [MemberOf(items[0])] + MembersOf(items[1..])
  }

  function MemberOf(i: Item): Member {
    Member(if i.name.Named? && i.name.name.Chars? then i.name.name.s else "", i.value)
  }

  // ----- nodes

  /** Attributes without a name and nodes flagged so are printed without one. */
  function AttrItem(a: Attr): Item {
    Item(if a.name.NULL? then Anonymous else Named(a.name), ScalarText(a.value), ScalarValue(a.value))
  }

  function NodeName(n: Node): Name {
    if n.anonymousJson then Anonymous else Named(n.name)
  }

  function NodeItem(n: Node): Item
    decreases n, 2
  {
    Item(NodeName(n), ValueText(n), NodeValue(n))
  }

  /** Attributes come first, children after them. */
  function Items(n: Node): (items: seq<Item>)
    ensures |items| == |n.attrs| + |n.children|
    decreases n, 0
  {
    seq(|n.attrs|, i requires 0 <= i < |n.attrs| => AttrItem(n.attrs[i]))
    + seq(|n.children|, i requires 0 <= i < |n.children| => NodeItem(n.children[i]))
  }

  lemma AttrAt(n: Node, i: nat)
    requires i < |n.attrs|
    ensures Items(n)[i] == AttrItem(n.attrs[i])
  {
  }

  lemma ChildAt(n: Node, i: nat)
    requires i < |n.children|
    ensures Items(n)[|n.attrs| + i] == NodeItem(n.children[i])
  {
  }

  /** Brackets are left out around a plain node. */
  function Opening(n: Node): string {
    if n.plainJson then "" else if n.childArray then "[" else "{"
  }

  function Closing(n: Node): string {
    if n.plainJson then "" else if n.childArray then "]" else "}"
  }

  /** The text of a node without its name. */
  function ValueText(n: Node): string
    decreases n, 1
  {
    Opening(n) + JoinedText(Items(n)) + Closing(n)
  }

  function NodeText(n: Node): string {
    FullText(NodeItem(n))
  }

  function NodeValue(n: Node): Json
    decreases n, 1
  {
    var items := Items(n);
    if n.plainJson then (if items == [] then Null else items[0].value)
    else if n.childArray then Arr(ValuesOf(items))
    else Obj(MembersOf(items))
  }

  predicate ProperlyNamed(i: Item) {
    i.name.Named? && i.name.name.Chars?
  }

  /** Arrays hold anonymous items, objects named ones, and a plain node one anonymous item. */
  predicate WellTyped(n: Node)
    decreases n
  {
    && (n.plainJson ==> |Items(n)| == 1)
    && (forall i :: i in Items(n) ==> if n.plainJson || n.childArray then i.name.Anonymous? else ProperlyNamed(i))
    && (forall i :: 0 <= i < |n.children| ==> WellTyped(n.children[i]))
  }
}

/** A reader of JSON texts after RFC 8259: white space (section 2), values (3), objects (4), arrays (5),
    numbers without fraction and exponent (6) and strings with escapes below U+0080 (7). What it accepts a
    full reader accepts with the same value. */
module JsonReader {
  import opened Bignum

  datatype Json =
    | Null
    | Bool(b: bool)
    | Num(n: int)
    | Str(s: string)
    | Arr(elements: seq<Json>)
    | Obj(members: seq<Member>)

  datatype Member = Member(name: string, value: Json)

  /** A value read and the text after it. */
  datatype Read<T> = Read(value: T, rest: string) | Bad

  predicate IsSpace(c: char) {
    c == ' ' || c == '\t' || c == '\n' || c == '\r'
  }

  function SkipSpace(s: string): (r: string)
    ensures |r| <= |s|
  {
    if s != "" && IsSpace(s[0]) then SkipSpace(s[1..]) else s
  }

  // ----- strings

  function HexValue(c: char): int {
    if '0' <= c <= '9' then c as int - '0' as int
    else if 'a' <= c <= 'f' then c as int - 'a' as int + 10
    else if 'A' <= c <= 'F' then c as int - 'A' as int + 10
    else -1
  }

  /** The character after `\u`. */
  function ReadCode(s: string): Read<char> {
    if |s| < 4 || HexValue(s[0]) != 0 || HexValue(s[1]) != 0 then Bad
    else if !(0 <= HexValue(s[2]) < 8) || HexValue(s[3]) < 0 then Bad
    else Read((16 * HexValue(s[2]) + HexValue(s[3])) as char, s[4..])
  }

  /** The character after a backslash. */
  function ReadEscape(s: string): (r: Read<char>)
    ensures r.Read? ==> |r.rest| < |s|
  {
    if s == "" then Bad
    else if s[0] == '"' || s[0] == '\\' || s[0] == '/' then Read(s[0], s[1..])
    else if s[0] == 'b' then Read(8 as char, s[1..])
    else if s[0] == 'f' then Read(12 as char, s[1..])
    else if s[0] == 'n' then Read('\n', s[1..])
    else if s[0] == 'r' then Read('\r', s[1..])
    else if s[0] == 't' then Read('\t', s[1..])
    else if s[0] == 'u' then ReadCode(s[1..])
    else Bad
  }

  function ReadChar(s: string): (r: Read<char>)
    requires s != ""
    ensures r.Read? ==> |r.rest| < |s|
  {
    if s[0] == '\\' then ReadEscape(s[1..])
    else if s[0] < ' ' then Bad
    else Read(s[0], s[1..])
  }

  /** The characters up to the closing quotation mark. */
  function ReadChars(s: string): (r: Read<string>)
    ensures r.Read? ==> |r.rest| < |s|
    decreases |s|
  {
    if s == "" then Bad
    else if s[0] == '"' then Read("", s[1..])
    else
      match ReadChar(s)
      case Bad => Bad
      case Read(c, rest) =>
        match ReadChars(rest)
        case Bad => Bad
        case Read(cs, rest') => Read([c] + cs, rest')
  }

  // ----- numbers

  /** How many digits `s` starts with. */
  function DigitCount(s: string): (k: nat)
    ensures k <= |s|
  {
    if s != "" && '0' <= s[0] <= '9' then 1 + DigitCount(s[1..]) else 0
  }

  /** Digits without a leading zero. */
  function ReadDigits(s: string): (r: Read<int>)
    ensures r.Read? ==> |r.rest| < |s|
  {
    var digits := s[..DigitCount(s)];
    if digits == "" || (digits[0] == '0' && |digits| > 1) then Bad
    else Read(Value(digits), s[|digits|..])
  }

  function ReadNumber(s: string): (r: Read<Json>)
    ensures r.Read? ==> |r.rest| < |s|
  {
    var minus := s != "" && s[0] == '-';
    match ReadDigits(if minus then s[1..] else s)
    case Bad => Bad
    case Read(n, rest) => Read(Num(if minus then -n else n), rest)
  }

  // ----- values

  function ReadWord(s: string, word: string, value: Json): (r: Read<Json>)
    requires word != ""
    ensures r.Read? ==> |r.rest| < |s|
  {
    if word <= s then Read(value, s[|word|..]) else Bad
  }

  function ReadValue(s: string): (r: Read<Json>)
    ensures r.Read? ==> |r.rest| < |s|
    decreases |s|, 2
  {
    var t := SkipSpace(s);
    if t == "" then Bad
    else if t[0] == '"' then
      match ReadChars(t[1..])
      case Bad => Bad
      case Read(cs, rest) => Read(Str(cs), rest)
    else if t[0] == '[' then
      var u := SkipSpace(t[1..]);
      if u != "" && u[0] == ']' then Read(Arr([]), u[1..])
      else
        match ReadElements(u)
        case Bad => Bad
        case Read(es, rest) => Read(Arr(es), rest)
    else if t[0] == '{' then
      var u := SkipSpace(t[1..]);
      if u != "" && u[0] == '}' then Read(Obj([]), u[1..])
      else
        match ReadMembers(u)
        case Bad => Bad
        case Read(ms, rest) => Read(Obj(ms), rest)
    else if t[0] == 'n' then ReadWord(t, "null", Null)
    else if t[0] == 't' then ReadWord(t, "true", Bool(true))
    else if t[0] == 'f' then ReadWord(t, "false", Bool(false))
    else ReadNumber(t)
  }

  /** One element or more, with commas between them, and the closing bracket. */
  function ReadElements(s: string): (r: Read<seq<Json>>)
    ensures r.Read? ==> |r.rest| < |s|
    decreases |s|, 3
  {
    match ReadValue(s)
    case Bad => Bad
    case Read(v, rest) =>
      match ReadMoreElements(SkipSpace(rest))
      case Bad => Bad
      case Read(vs, rest') => Read([v] + vs, rest')
  }

  /** What follows an element. */
  function ReadMoreElements(s: string): (r: Read<seq<Json>>)
    ensures r.Read? ==> |r.rest| < |s|
    decreases |s|, 4
  {
    if s == "" then Bad
    else if s[0] == ']' then Read([], s[1..])
    else if s[0] == ',' then ReadElements(s[1..])
    else Bad
  }

  function ReadMember(s: string): (r: Read<Member>)
    ensures r.Read? ==> |r.rest| < |s|
    decreases |s|, 2
  {
    var t := SkipSpace(s);
    if t == "" || t[0] != '"' then Bad
    else
      match ReadChars(t[1..])
      case Bad => Bad
      case Read(name, rest) =>
        var u := SkipSpace(rest);
        if u == "" || u[0] != ':' then Bad
        else
          match ReadValue(u[1..])
          case Bad => Bad
          case Read(v, rest') => Read(Member(name, v), rest')
  }

  function ReadMembers(s: string): (r: Read<seq<Member>>)
    ensures r.Read? ==> |r.rest| < |s|
    decreases |s|, 3
  {
    match ReadMember(s)
    case Bad => Bad
    case Read(m, rest) =>
      match ReadMoreMembers(SkipSpace(rest))
      case Bad => Bad
      case Read(ms, rest') => Read([m] + ms, rest')
  }

  function ReadMoreMembers(s: string): (r: Read<seq<Member>>)
    ensures r.Read? ==> |r.rest| < |s|
    decreases |s|, 4
  {
    if s == "" then Bad
    else if s[0] == '}' then Read([], s[1..])
    else if s[0] == ',' then ReadMembers(s[1..])
    else Bad
  }

  /** A JSON text is one value and nothing else (section 2). */
  function ReadText(s: string): Read<Json> {
    match ReadValue(s)
    case Bad => Bad
    case Read(v, rest) => if SkipSpace(rest) == "" then Read(v, "") else Bad
  }

  // ----- one step each

  lemma ReadElementsStep(s: string, v: Json, after: string, vs: seq<Json>, rest: string)
    requires ReadValue(s) == Read(v, after) && after != "" && !IsSpace(after[0])
    requires ReadMoreElements(after) == Read(vs, rest)
    ensures ReadElements(s) == Read([v] + vs, rest)
  {
  }

  lemma ReadMembersStep(s: string, m: Member, after: string, ms: seq<Member>, rest: string)
    requires ReadMember(s) == Read(m, after) && after != "" && !IsSpace(after[0])
    requires ReadMoreMembers(after) == Read(ms, rest)
    ensures ReadMembers(s) == Read([m] + ms, rest)
  {
  }

  lemma ReadComma(s: string)
    ensures ReadMoreElements("," + s) == ReadElements(s) && ReadMoreMembers("," + s) == ReadMembers(s)
  {
    assert ("," + s)[1..] == s;
  }

  lemma ReadBracket(items: string, es: seq<Json>, rest: string)
    requires items != "" && !IsSpace(items[0]) && items[0] != ']' && ReadElements(items) == Read(es, rest)
    ensures ReadValue("[" + items) == Read(Arr(es), rest)
  {
    assert ("[" + items)[1..] == items;
  }

  lemma ReadBrace(items: string, ms: seq<Member>, rest: string)
    requires items != "" && !IsSpace(items[0]) && items[0] != '}' && ReadMembers(items) == Read(ms, rest)
    ensures ReadValue("{" + items) == Read(Obj(ms), rest)
  {
    assert ("{" + items)[1..] == items;
  }

  lemma ReadNothing(rest: string)
    ensures ReadValue("[" + ("]" + rest)) == Read(Arr([]), rest) && ReadMoreElements("]" + rest) == Read([], rest)
    ensures ReadValue("{" + ("}" + rest)) == Read(Obj([]), rest) && ReadMoreMembers("}" + rest) == Read([], rest)
  {
    assert ("[" + ("]" + rest))[1..] == "]" + rest && ("{" + ("}" + rest))[1..] == "}" + rest;
    assert ("]" + rest)[1..] == rest == ("}" + rest)[1..];
  }

  lemma ReadMemberStep(s: string, name: string, after: string, v: Json, rest: string)
    requires ReadChars(s) == Read(name, ":" + after) && ReadValue(after) == Read(v, rest)
    ensures ReadMember("\"" + s) == Read(Member(name, v), rest)
  {
    assert ("\"" + s)[1..] == s && (":" + after)[1..] == after;
  }

  lemma ReadQuote(s: string, cs: string, rest: string)
    requires ReadChars(s) == Read(cs, rest)
    ensures ReadValue("\"" + s) == Read(Str(cs), rest)
  {
    assert ("\"" + s)[1..] == s;
  }

  lemma ReadDigitsStep(s: string, n: int, rest: string)
    requires ReadDigits(s) == Read(n, rest)
    ensures ReadValue(s) == Read(Num(n), rest) && ReadValue("-" + s) == Read(Num(-n), rest)
  {
    assert ("-" + s)[1..] == s;
    assert '0' <= s[0] <= '9';
  }

  lemma ReadWords(rest: string)
    ensures ReadValue("null" + rest) == Read(Null, rest)
    ensures ReadValue("true" + rest) == Read(Bool(true), rest)
    ensures ReadValue("false" + rest) == Read(Bool(false), rest)
  {
    assert ("null" + rest)[4..] == rest && ("true" + rest)[4..] == rest && ("false" + rest)[5..] == rest;
  }
}

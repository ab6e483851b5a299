/** The wire format of lib/parcel.c: what each kind of field is written as and read back from. */
module ParcelFormat {
  import opened MachineInts
  import opened Powers

  type Bytes = seq<byte>

  /** A value read and the bytes after it. */
  datatype Read<T> = Read(value: T, rest: Bytes) | Malformed

  // ----- unsigned numbers, 7 bits a byte, low bits first

  function Varuint(n: nat): Bytes {
    if n < 128 then [n] else [128 + n % 128] + Varuint(n / 128)
  }

  function ReadVaruint(s: Bytes): Read<nat> {
    if s == [] then Malformed
    else if s[0] < 128 then Read(s[0], s[1..])
    else
      match ReadVaruint(s[1..])
      case Malformed => Malformed
      case Read(n, rest) => Read(s[0] - 128 + 128 * n, rest)
  }

  lemma {:induction false} VaruintIsRead(n: nat, rest: Bytes)
    ensures ReadVaruint(Varuint(n) + rest) == Read(n, rest)
  {
    var s := Varuint(n) + rest;
    if n < 128 {
      assert s[1..] == rest;
    } else {
      assert s[1..] == Varuint(n / 128) + rest;
      VaruintIsRead(n / 128, rest);
    }
  }

  /** Whatever is read: up to the first byte below 128 each byte gives 7 bits, low bits first. */
  lemma {:induction false} VaruintReads(s: Bytes, k: nat, i: nat)
    requires i <= k < |s| && s[k] < 128 && forall j :: 0 <= j < k ==> s[j] >= 128
    ensures var r := ReadVaruint(s);
            && r.Read? && r.rest == s[k + 1..] && r.value < Room(k + 1)
            && Room(i) > 0 && r.value / Room(i) % 128 == s[i] % 128
    decreases k
  {
    if k == 0 {
      assert Room(1) == 128 * Room(0);
      assert s[0] / 1 == s[0];
    } else {
      VaruintReads(s[1..], k - 1, if i > 0 then i - 1 else 0);
      assert s[1..][k..] == s[k + 1..];
      var v, low := ReadVaruint(s[1..]).value, s[0] - 128;
      assert ReadVaruint(s).value == low + 128 * v;
      assert Room(k + 1) == 128 * Room(k);
      GroupOf(v, low, i);
    }
  }

  /** One more group in front. */
  lemma GroupOf(v: nat, low: nat, i: nat)
    requires low < 128
    ensures Room(i) > 0
    ensures (low + 128 * v) / Room(i) % 128 == if i == 0 then low else v / Room(i - 1) % 128
  {
    var n := low + 128 * v;
    DivisionIs(n, 128, v, low);
    if i == 0 {
      assert n / 1 == n;
    } else {
      RoomGrows(i);
      if i > 1 {
        RoomGrows(i - 1);
      }
      DivTwice(n, 128, Room(i - 1));
    }
  }

  /** 7 bits a byte: `k` bytes hold the numbers below 128 to the `k`. */
  function Room(k: nat): nat {
    if k == 0 then 1 else 128 * Room(k - 1)
  }

  lemma {:induction false} VaruintLength(n: nat, k: nat)
    requires k > 0
    ensures |Varuint(n)| <= k <==> n < Room(k)
  {
    if n < 128 {
      RoomGrows(k);
    } else if k > 1 {
      VaruintLength(n / 128, k - 1);
    } else {
      assert Varuint(n / 128) != [];
      assert Room(1) == 128 * Room(0);
    }
  }

  lemma {:induction false} RoomGrows(k: nat)
    requires k > 0
    ensures Room(k) >= 128
  {
    if k == 1 {
      assert Room(1) == 128 * Room(0);
    } else {
      RoomGrows(k - 1);
    }
  }

  /** Byte `i` holds the `i`th group of 7 bits, and its high bit says whether more follow. */
  lemma {:induction false} VaruintBytes(n: nat, i: nat)
    requires i < |Varuint(n)|
    ensures Room(i) > 0 && Varuint(n)[i] % 128 == n / Room(i) % 128
    ensures Varuint(n)[i] >= 128 <==> i < |Varuint(n)| - 1
  {
    if i > 0 {
      RoomGrows(i);
      VaruintBytes(n / 128, i - 1);
      assert Room(i - 1) > 0;
      DivTwice(n, 128, Room(i - 1));
    } else {
      assert n / 1 == n;
    }
  }

  /** The 10 bytes of the buffer of `parcel_write_varuint64` suffice, and 5 do for 32 bits. */
  lemma TenBytes(n: nat)
    requires n < 0x1_0000_0000_0000_0000
    ensures |Varuint(n)| <= 10 && (n < 0x1_0000_0000 ==> |Varuint(n)| <= 5)
  {
    assert Room(5) == 0x8_0000_0000 by {
      assert Room(1) == 128 && Room(2) == 0x4000 && Room(3) == 0x20_0000;
    }
    assert Room(7) == 0x2_0000_0000_0000;
    assert Room(10) == 0x40_0000_0000_0000_0000 by {
      assert Room(9) == 0x8000_0000_0000_0000;
    }
    VaruintLength(n, 10);
    VaruintLength(n, 5);
  }

  // ----- signed numbers

  /** `x ^ s` where `s` is a number shifted right until only its sign is left: 0 or -1. */
  function XorSign(x: int, negative: bool): int {
    if negative then -x - 1 else x
  }

  /** `(val << 1) ^ (val >> 63)` */
  function ZigZag(v: int): (n: nat) {
    XorSign(2 * v, v < 0)
  }

  /** `(val >> 1) ^ (-(val & 1))` as a signed number */
  function UnZigZag(n: nat): int {
    XorSign(n / 2, n % 2 == 1)
  }

  /** Signs alternate: 0, -1, 1, -2, 2 and so on. */
  lemma ZigZagOrder(v: int)
    ensures v >= 0 ==> ZigZag(v) == 2 * v
    ensures v < 0 ==> ZigZag(v) == 2 * (-v) - 1
  {}

  lemma ZigZagRoundTrip(v: int, limit: nat)
    ensures UnZigZag(ZigZag(v)) == v
    ensures ZigZag(v) < 2 * limit <==> 0 - limit <= v < limit
  {
  }

  // ----- fixed width, in two's complement, low byte first

  function Little(n: nat, width: nat): Bytes {
    if width == 0 then [] else [n % 256] + Little(n / 256, width - 1)
  }

  function FromLittle(s: Bytes): nat {
    if s == [] then 0 else s[0] + 256 * FromLittle(s[1..])
  }

  function Wrap(v: int, modulus: nat): nat {
    if v < 0 then (if v + modulus < 0 then 0 else v + modulus) else v
  }

  function Unwrap(n: nat, modulus: nat): int {
    if 2 * n >= modulus then n - modulus else n
  }

  function Scale(width: nat): nat {
    if width == 0 then 1 else 256 * Scale(width - 1)
  }

  lemma {:induction false} LittleIsRead(n: nat, width: nat)
    requires n < Scale(width)
    ensures |Little(n, width)| == width && FromLittle(Little(n, width)) == n
  {
    if width > 0 {
      LittleIsRead(n / 256, width - 1);
      assert Little(n, width)[1..] == Little(n / 256, width - 1);
    }
  }

  /** Byte `i` holds the `i`th group of 8 bits. */
  lemma {:induction false} LittleBytes(n: nat, width: nat, i: nat)
    requires i < width
    ensures |Little(n, width)| == width && Scale(i) > 0 && Little(n, width)[i] == n / Scale(i) % 256
  {
    if i > 0 {
      LittleBytes(n / 256, width - 1, i - 1);
      DivTwice(n, 256, Scale(i - 1));
    } else {
      LittleLength(n, width);
      assert n / 1 == n;
    }
  }

  lemma {:induction false} LittleLength(n: nat, width: nat)
    ensures |Little(n, width)| == width
  {
    if width > 0 {
      LittleLength(n / 256, width - 1);
    }
  }

  // ----- fields

  datatype Field =
    | UnsignedField(n: nat)
    | Signed(v: int)
    | Boolean(b: bool)
    | Text(s: Bytes)
    | NullText
    | Fixed(v: int, width: nat)

  datatype Kind = UnsignedKind | SignedKind | BooleanKind | TextKind | FixedKind(width: nat)

  function KindOf(f: Field): Kind {
    match f
    case UnsignedField(_) => UnsignedKind
    case Signed(_) => SignedKind
    case Boolean(_) => BooleanKind
    case Text(_) => TextKind
    case NullText => TextKind
    case Fixed(_, w) => FixedKind(w)
  }

  /** The values the C types hold. */
  predicate InRange(f: Field) {
    match f
    case Fixed(v, w) => (w == 4 || w == 8) && 0 - Scale(w) <= 2 * v < Scale(w)
    case _ => true
  }

  function Flag(b: bool): byte {
    if b then 1 else 0
  }

  /** A string is a flag for NULL, its length, its bytes and a terminating NUL. */
  function Written(f: Field): Bytes {
    match f
    case UnsignedField(n) => Varuint(n)
    case Signed(v) => Varuint(ZigZag(v))
    case Boolean(b) => [Flag(b)]
    case Text(s) => [Flag(false)] + Varuint(|s|) + s + [0]
    case NullText => [Flag(true)]
    case Fixed(v, w) => Little(Wrap(v, Scale(w)), w)
  }

  function ReadText(s: Bytes): Read<Field> {
    match ReadVaruint(s)
    case Malformed => Malformed
    case Read(n, rest) => if n < |rest| then Read(Text(rest[..n]), rest[n + 1..]) else Malformed
  }

  function ReadField(k: Kind, s: Bytes): Read<Field> {
    match k
    case UnsignedKind =>
      (match ReadVaruint(s) case Malformed => Malformed case Read(n, rest) => Read(UnsignedField(n), rest))
    case SignedKind =>
      (match ReadVaruint(s) case Malformed => Malformed case Read(n, rest) => Read(Signed(UnZigZag(n)), rest))
    case BooleanKind =>
      if s == [] then Malformed else Read(Boolean(s[0] != 0), s[1..])
    case TextKind =>
      if s == [] then Malformed else if s[0] != 0 then Read(NullText, s[1..]) else ReadText(s[1..])
    case FixedKind(w) =>
      if |s| < w then Malformed else Read(Fixed(Unwrap(FromLittle(s[..w]), Scale(w)), w), s[w..])
  }

  lemma Regroup(a: Bytes, b: Bytes, c: Bytes, d: Bytes, e: Bytes)
    ensures a + b + c + d + e == a + (b + (c + d + e))
  {
  }

  lemma CutText(t: Bytes, rest: Bytes)
    ensures var after := t + [0] + rest;
            |t| < |after| && after[..|t|] == t && after[|t| + 1..] == rest
  {
  }

  lemma TextIsRead(t: Bytes, rest: Bytes)
    ensures ReadText(Varuint(|t|) + (t + [0] + rest)) == Read(Text(t), rest)
  {
    VaruintIsRead(|t|, t + [0] + rest);
    CutText(t, rest);
  }

  lemma FlaggedIsRead(flag: byte, s: Bytes)
    ensures ReadField(BooleanKind, [flag] + s) == Read(Boolean(flag != 0), s)
    ensures ReadField(TextKind, [flag] + s) == if flag != 0 then Read(NullText, s) else ReadText(s)
  {
    assert ([flag] + s)[1..] == s;
  }

  lemma FixedIsRead(v: int, w: nat, rest: Bytes)
    requires InRange(Fixed(v, w))
    ensures ReadField(FixedKind(w), Written(Fixed(v, w)) + rest) == Read(Fixed(v, w), rest)
  {
    var n := Wrap(v, Scale(w));
    LittleIsRead(n, w);
    assert (Little(n, w) + rest)[..w] == Little(n, w) && (Little(n, w) + rest)[w..] == rest;
  }

  /** A field written is read back by the reader of its kind. */
  lemma FieldIsRead(f: Field, rest: Bytes)
    requires InRange(f)
    ensures ReadField(KindOf(f), Written(f) + rest) == Read(f, rest)
  {
    match f
    case UnsignedField(n) => VaruintIsRead(n, rest);
    case Signed(v) => VaruintIsRead(ZigZag(v), rest);
    case Boolean(b) => FlaggedIsRead(Flag(b), rest);
    case NullText => FlaggedIsRead(1, rest);
    case Text(t) =>
      var after := Varuint(|t|) + (t + [0] + rest);
      TextIsRead(t, rest);
      FlaggedIsRead(0, after);
      TextParts(t, rest);
    case Fixed(v, w) => FixedIsRead(v, w, rest);
  }

  /** Where the parts of a field are: the flag of a string says whether it is NULL, its length comes next and a zero
      byte last. */
  lemma FieldLayout(s: Bytes, b: bool)
    ensures Written(Text(s)) == [0] + Varuint(|s|) + s + [0]
    ensures Written(NullText) == [1]
    ensures Written(Boolean(b)) == [if b then 1 else 0]
  {}

  /** A number of fixed width is written as it is, or that much above its range if it is negative. */
  lemma FixedLayout(v: int, w: nat)
    requires InRange(Fixed(v, w))
    ensures |Written(Fixed(v, w))| == w
    ensures FromLittle(Written(Fixed(v, w))) == if v < 0 then v + Scale(w) else v
  {
    LittleIsRead(Wrap(v, Scale(w)), w);
  }

  lemma TextParts(t: Bytes, rest: Bytes)
    ensures Written(Text(t)) + rest == [0] + (Varuint(|t|) + (t + [0] + rest))
  {
    Regroup([Flag(false)], Varuint(|t|), t, [0], rest);
  }

  function WrittenAll(fs: seq<Field>): Bytes {
    if fs == [] then [] else Written(fs[0]) + WrittenAll(fs[1..])
  }

  function ReadAll(ks: seq<Kind>, s: Bytes): Read<seq<Field>> {
    if ks == [] then Read([], s)
    else
      match ReadField(ks[0], s)
      case Malformed => Malformed
      case Read(f, rest) =>
        match ReadAll(ks[1..], rest)
        case Malformed => Malformed
        case Read(fs, rest') => Read([f] + fs, rest')
  }

  function Kinds(fs: seq<Field>): seq<Kind> {
    seq(|fs|, i requires 0 <= i < |fs| => KindOf(fs[i]))
  }

  /** Reading the same kinds in the same order gives back whatever was written. */
  lemma {:induction false} AllAreRead(fs: seq<Field>, rest: Bytes)
    requires forall f :: f in fs ==> InRange(f)
    ensures ReadAll(Kinds(fs), WrittenAll(fs) + rest) == Read(fs, rest)
  {
    if fs != [] {
      var after := WrittenAll(fs[1..]) + rest;
      assert WrittenAll(fs) + rest == Written(fs[0]) + after;
      assert Kinds(fs)[1..] == Kinds(fs[1..]);
      FieldIsRead(fs[0], after);
      AllAreRead(fs[1..], rest);
      assert [fs[0]] + fs[1..] == fs;
    }
  }
}

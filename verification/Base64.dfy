/** The base64 codec of libssh/base64.c (section 5.2 of RFC 1521). */
module Base64 {
  import opened MachineInts

  type Bytes = seq<byte>

  datatype Option<T> = None | Some(value: T)

  /** `alphabet[i]` */
  function Letter(i: int): char
    requires 0 <= i < 64
  {
    if i < 26 then 'A' + i as char
    else if i < 52 then 'a' + (i - 26) as char
    else if i < 62 then '0' + (i - 52) as char
    else if i == 62 then '+' else '/'
  }

  /** `strchr(alphabet, c) - alphabet`, -1 if there is no such letter */
  function Index(c: char): (i: int)
    ensures -1 <= i < 64 && (i >= 0 ==> Letter(i) == c)
  {
    if 'A' <= c <= 'Z' then c as int - 'A' as int
    else if 'a' <= c <= 'z' then c as int - 'a' as int + 26
    else if '0' <= c <= '9' then c as int - '0' as int + 52
    else if c == '+' then 62 else if c == '/' then 63 else -1
  }

  lemma IndexOfLetter(i: int)
    requires 0 <= i < 64
    ensures Index(Letter(i)) == i
  {
  }

  /** Capital letters, small letters and digits, each in order, then two signs. */
  lemma LettersInOrder(i: int, j: int)
    requires 0 <= i <= j < 64
    ensures j < 26 || 26 <= i <= j < 52 || 52 <= i <= j < 62 ==> Letter(j) as int - Letter(i) as int == j - i
    ensures Letter(0) == 'A' && Letter(25) == 'Z' && Letter(26) == 'a' && Letter(51) == 'z'
    ensures Letter(52) == '0' && Letter(61) == '9' && Letter(62) == '+' && Letter(63) == '/'
  {}

  // ----- encoding

  /** `_bin_to_base64`: one to three bytes become four characters. */
  function Quad(s: Bytes): (r: string)
    requires 1 <= |s| <= 3
    ensures |r| == 4
  {
    var a, b, c: int := s[0], if |s| > 1 then s[1] else 0, if |s| > 2 then s[2] else 0;
    [Letter(a / 4), Letter(b / 16 + a % 4 * 16),
     if |s| > 1 then Letter(c / 64 + b % 16 * 4) else '=',
     if |s| > 2 then Letter(c % 64) else '=']
  }

  function Encode(s: Bytes): string {
    if s == [] then "" else if |s| <= 3 then Quad(s) else Quad(s[..3]) + Encode(s[3..])
  }

  // ----- decoding

  /** `get_equals` counts all `=` and cuts the string at the first. */
  function CountEquals(s: string): nat {
    if s == "" then 0 else (if s[0] == '=' then 1 else 0) + CountEquals(s[1..])
  }

  function Cut(s: string): (r: string)
    ensures |r| <= |s|
  {
    if s == "" || s[0] == '=' then "" else [s[0]] + Cut(s[1..])
  }

  /** `_base64_to_bin`: `num` bytes from `num + 1` letters. */
  function Triple(s: string, num: nat): (r: Option<Bytes>)
    requires 1 <= num <= 3 && |s| >= num + 1
    ensures r.Some? ==> |r.value| == num
  {
    var i, j := Index(s[0]), Index(s[1]);
    var k, l := if num > 1 then Index(s[2]) else 0, if num > 2 then Index(s[3]) else 0;
    if i < 0 || j < 0 || k < 0 || l < 0 then None
    else
      var block := i * 0x4_0000 + j * 0x1000 + k * 0x40 + l;
      Some([block / 0x1_0000, block / 0x100 % 0x100, block % 0x100][..num])
  }

  function Prepended(head: Bytes, tail: Option<Bytes>): Option<Bytes> {
    if tail.None? then None else Some(head + tail.value)
  }

  /** The blocks of `base64_to_bin`. */
  function DecodeBlocks(s: string, equals: nat): Option<Bytes>
    decreases |s|
  {
    if |s| > 4 then
      match Triple(s, 3)
      case None => None
      case Some(head) => Prepended(head, DecodeBlocks(s[4..], equals))
    else if |s| >= 2 && |s| + equals == 4 then Triple(s, |s| - 1)
    else None
  }

  function Decode(source: string): Option<Bytes> {
    if CountEquals(source) > 2 then None else DecodeBlocks(Cut(source), CountEquals(source))
  }

  // ----- the round trip

  /** The letters of an encoding and its padding. */
  function Padding(n: nat): string {
    if n % 3 == 1 then "==" else if n % 3 == 2 then "=" else ""
  }

  function Letters(s: Bytes): string {
    if s == [] then ""
    else if |s| <= 3 then Quad(s)[..|s| + 1]
    else Quad(s[..3]) + Letters(s[3..])
  }

  predicate NoEquals(s: string) {
    forall i :: 0 <= i < |s| ==> s[i] != '='
  }

  lemma LetterIsNoEquals(i: int)
    requires 0 <= i < 64
    ensures Letter(i) != '='
  {
  }

  lemma QuadLetters(s: Bytes)
    requires 1 <= |s| <= 3
    ensures NoEquals(Quad(s)[..|s| + 1]) && Quad(s) == Quad(s)[..|s| + 1] + Padding(|s|)
  {
    var a, b, c: int := s[0], if |s| > 1 then s[1] else 0, if |s| > 2 then s[2] else 0;
    LetterIsNoEquals(a / 4);
    LetterIsNoEquals(b / 16 + a % 4 * 16);
    LetterIsNoEquals(c / 64 + b % 16 * 4);
    LetterIsNoEquals(c % 64);
  }

  lemma {:induction false} EncodeIsLetters(s: Bytes)
    ensures NoEquals(Letters(s)) && Encode(s) == Letters(s) + Padding(|s|)
  {
    if 0 < |s| <= 3 {
      QuadLetters(s);
    } else if |s| > 3 {
      QuadLetters(s[..3]);
      EncodeIsLetters(s[3..]);
      assert Padding(|s[3..]|) == Padding(|s|);
    }
  }

  lemma {:induction false} PaddingIsFound(s: string, n: nat)
    requires NoEquals(s)
    ensures CountEquals(s + Padding(n)) == |Padding(n)| && Cut(s + Padding(n)) == s
  {
    if s == "" {
      assert s + Padding(n) == Padding(n);
      assert "=="[1..] == "=" && "="[1..] == "";
      assert CountEquals("=") == 1 && CountEquals("==") == 2;
    } else {
      assert (s + Padding(n))[1..] == s[1..] + Padding(n);
      PaddingIsFound(s[1..], n);
    }
  }

  /** The bits of one block come back. */
  lemma QuadIsRead(s: Bytes, rest: string)
    requires 1 <= |s| <= 3
    ensures Triple(Quad(s)[..|s| + 1] + rest, |s|) == Some(s)
  {
    var a, b, c: int := s[0], if |s| > 1 then s[1] else 0, if |s| > 2 then s[2] else 0;
    var t := Quad(s)[..|s| + 1] + rest;
    LettersAreRead(a, b, c);
    SixBits(a, b, c);
    assert t[0] == Letter(a / 4) && t[1] == Letter(b / 16 + a % 4 * 16);
    assert |s| > 1 ==> t[2] == Letter(c / 64 + b % 16 * 4);
    assert |s| > 2 ==> t[3] == Letter(c % 64);
    BlockOf(t, |s|, a / 4, b / 16 + a % 4 * 16, c / 64 + b % 16 * 4, c % 64);
    assert [a, b, c][..|s|] == s;
  }

  /** The bytes of a block whose letters stand for these numbers. */
  lemma BlockOf(t: string, num: nat, i: int, j: int, k: int, l: int)
    requires 1 <= num <= 3 && |t| >= num + 1 && i >= 0 && j >= 0 && k >= 0 && l >= 0
    requires Index(t[0]) == i && Index(t[1]) == j
    requires (if num > 1 then Index(t[2]) else 0) == k && (if num > 2 then Index(t[3]) else 0) == l
    ensures i < 64 && j < 64 && k < 64 && l < 64
    ensures var block := i * 0x4_0000 + j * 0x1000 + k * 0x40 + l;
            Triple(t, num) == Some([block / 0x1_0000, block / 0x100 % 0x100, block % 0x100][..num])
  {
  }

  lemma LettersAreRead(a: int, b: int, c: int)
    requires 0 <= a < 256 && 0 <= b < 256 && 0 <= c < 256
    ensures var i, j, k, l := a / 4, b / 16 + a % 4 * 16, c / 64 + b % 16 * 4, c % 64;
            && Index(Letter(i)) == i && Index(Letter(j)) == j && Index(Letter(k)) == k && Index(Letter(l)) == l
            && (c == 0 ==> l == 0 && (b == 0 ==> k == 0))
  {
    IndexOfLetter(a / 4);
    IndexOfLetter(b / 16 + a % 4 * 16);
    IndexOfLetter(c / 64 + b % 16 * 4);
    IndexOfLetter(c % 64);
  }

  /** Regrouping 8 bits each as 6 bits each keeps the block, and its bytes are found in it. */
  lemma SixBits(a: int, b: int, c: int)
    requires 0 <= a < 256 && 0 <= b < 256 && 0 <= c < 256
    ensures a / 4 * 0x4_0000 + (b / 16 + a % 4 * 16) * 0x1000 + (c / 64 + b % 16 * 4) * 0x40 + c % 64
         == a * 0x1_0000 + b * 0x100 + c
    ensures (a * 0x1_0000 + b * 0x100 + c) / 0x1_0000 == a
    ensures (a * 0x1_0000 + b * 0x100 + c) / 0x100 % 0x100 == b
    ensures (a * 0x1_0000 + b * 0x100 + c) % 0x100 == c
  {
    SameBlock(a / 4, a % 4, b / 16, b % 16, c / 64, c % 64);
    assert a == 4 * (a / 4) + a % 4;
    assert b == 16 * (b / 16) + b % 16;
    assert c == 64 * (c / 64) + c % 64;
    HighWord(a, b * 0x100 + c);
    HighByte(a * 0x100 + b, c);
    LowByte(a, b);
    assert a * 0x1_0000 + b * 0x100 + c == (a * 0x100 + b) * 0x100 + c;
  }

  lemma SameBlock(a: int, a': int, b: int, b': int, c: int, c': int)
    ensures a * 0x4_0000 + (b + a' * 16) * 0x1000 + (c + b' * 4) * 0x40 + c'
         == (4 * a + a') * 0x1_0000 + (16 * b + b') * 0x100 + (64 * c + c')
  {
  }

  lemma HighWord(high: int, low: int)
    requires 0 <= low < 0x1_0000
    ensures (high * 0x1_0000 + low) / 0x1_0000 == high
  {
  }

  lemma HighByte(high: int, low: int)
    requires 0 <= low < 0x100
    ensures (high * 0x100 + low) / 0x100 == high && (high * 0x100 + low) % 0x100 == low
  {
  }

  lemma LowByte(high: int, low: int)
    requires 0 <= low < 0x100
    ensures (high * 0x100 + low) % 0x100 == low
  {
    HighByte(high, low);
  }

  /** The letters of a block, each worth 64 of the next, stand for the number that its bytes are, each worth 256 of the
      next; for one or two bytes the missing low bits are 0. */
  lemma QuadIsNumber(s: Bytes)
    requires 1 <= |s| <= 3
    ensures var q := Quad(s);
            var a, b, c: int := s[0], if |s| > 1 then s[1] else 0, if |s| > 2 then s[2] else 0;
            && (|s| == 3 ==> Index(q[0]) * 0x4_0000 + Index(q[1]) * 0x1000 + Index(q[2]) * 0x40 + Index(q[3])
                               == a * 0x1_0000 + b * 0x100 + c)
            && (|s| == 2 ==> Index(q[0]) * 0x1000 + Index(q[1]) * 0x40 + Index(q[2]) == 4 * (a * 0x100 + b)
                             && q[3] == '=')
            && (|s| == 1 ==> Index(q[0]) * 0x40 + Index(q[1]) == 16 * a && q[2..] == "==")
  {
    var a, b, c: int := s[0], if |s| > 1 then s[1] else 0, if |s| > 2 then s[2] else 0;
    LettersAreRead(a, b, c);
    SixBits(a, b, c);
    assert Quad(s)[2..] == [Quad(s)[2], Quad(s)[3]];
  }

  /** The `k`th block of three bytes, the last one perhaps shorter. */
  function BlockAt(s: Bytes, k: nat): (b: Bytes)
    requires 3 * k < |s|
    ensures 1 <= |b| <= 3
  {
    s[3 * k..if 3 * k + 3 <= |s| then 3 * k + 3 else |s|]
  }

  lemma BlockFurther(s: Bytes, k: nat)
    requires 3 * k + 3 < |s|
    ensures BlockAt(s[3..], k) == BlockAt(s, k + 1)
  {
  }

  lemma FirstBlock(s: Bytes)
    requires s != []
    ensures 4 <= |Encode(s)| && Encode(s)[0..4] == Quad(BlockAt(s, 0))
  {
    if |s| <= 3 {
      assert BlockAt(s, 0) == s;
    } else {
      assert BlockAt(s, 0) == s[..3];
    }
  }

  /** Block by block, in order. */
  lemma {:induction false} EncodeBlock(s: Bytes, k: nat)
    requires 3 * k < |s|
    ensures 4 * k + 4 <= |Encode(s)| && Encode(s)[4 * k..4 * k + 4] == Quad(BlockAt(s, k))
    decreases k
  {
    if k == 0 {
      FirstBlock(s);
    } else {
      EncodeBlock(s[3..], k - 1);
      BlockFurther(s, k - 1);
      FourFurther(Quad(s[..3]), Encode(s[3..]), k - 1);
      assert Encode(s) == Quad(s[..3]) + Encode(s[3..]);
    }
  }

  lemma FourFurther(quad: string, rest: string, k: nat)
    requires |quad| == 4 && 4 * k + 4 <= |rest|
    ensures (quad + rest)[4 * (k + 1)..4 * (k + 1) + 4] == rest[4 * k..4 * k + 4]
  {
  }

  /** A block is decoded if its letters are in the alphabet; bits beyond its last byte are ignored. */
  lemma TripleIsNumber(s: string, num: nat)
    requires 1 <= num <= 3 && |s| >= num + 1
    ensures Triple(s, num).Some? <==> forall i :: 0 <= i <= num ==> Index(s[i]) >= 0
    ensures Triple(s, num).Some? ==>
              Number(Triple(s, num).value) ==
                if num == 1 then (Index(s[0]) * 0x40 + Index(s[1])) / 0x10
                else if num == 2 then (Index(s[0]) * 0x1000 + Index(s[1]) * 0x40 + Index(s[2])) / 4
                else Index(s[0]) * 0x4_0000 + Index(s[1]) * 0x1000 + Index(s[2]) * 0x40 + Index(s[3])
  {
    if Triple(s, num).Some? {
      var v := Triple(s, num).value;
      if num == 1 {
        OneByte(Index(s[0]) * 0x40 + Index(s[1]));
        assert v[1..] == [];
      } else if num == 2 {
        TwoBytes(Index(s[0]) * 0x1000 + Index(s[1]) * 0x40 + Index(s[2]));
        assert v[1..] == [v[1]] && v[1..][1..] == [];
      } else {
        ThreeBytes(Index(s[0]) * 0x4_0000 + Index(s[1]) * 0x1000 + Index(s[2]) * 0x40 + Index(s[3]));
      }
      NumberOf(v);
    }
  }

  /** The number that bytes are, each worth 256 of the next. */
  function Number(s: Bytes): int {
    if s == [] then 0 else 256 * Number(s[..|s| - 1]) + s[|s| - 1] as int
  }

  lemma NumberOf(s: Bytes)
    ensures |s| == 1 ==> Number(s) == s[0]
    ensures |s| == 2 ==> var a, b: int := s[0], s[1]; Number(s) == 256 * a + b
    ensures |s| == 3 ==> var a, b, c: int := s[0], s[1], s[2]; Number(s) == 0x1_0000 * a + 256 * b + c
  {
    if 1 <= |s| <= 3 {
      assert s[..|s| - 1][..0] == [] && Number([]) == 0;
      if |s| == 1 {
        assert s[..0] == [];
      } else if |s| == 2 {
        assert s[..1][0] == s[0] && s[..1][..0] == [];
        assert Number(s[..1]) == s[0];
      } else {
        assert s[..2][..1] == s[..1] && s[..1][..0] == [];
        assert Number(s[..1]) == s[0];
        assert s[..2][1] == s[1];
      }
    }
  }

  lemma OneByte(x: nat)
    ensures x * 0x1000 / 0x1_0000 == x / 0x10
  {}

  lemma TwoBytes(x: nat)
    requires x < 0x4_0000
    ensures 256 * (x * 0x40 / 0x1_0000) + x * 0x40 / 0x100 % 0x100 == x / 4
  {
    assert x * 0x40 / 0x100 == x / 4;
    assert x * 0x40 / 0x1_0000 == x / 4 / 0x100;
  }

  lemma ThreeBytes(x: nat)
    requires x < 0x100_0000
    ensures 0x1_0000 * (x / 0x1_0000) + 256 * (x / 0x100 % 0x100) + x % 0x100 == x
  {
    assert x / 0x1_0000 == x / 0x100 / 0x100;
  }

  predicate AllLetters(s: string) {
    forall i :: 0 <= i < |s| ==> Index(s[i]) >= 0
  }

  lemma LettersSplit(s: string)
    requires |s| > 4
    ensures AllLetters(s) <==> Triple(s, 3).Some? && AllLetters(s[4..])
  {
    TripleIsNumber(s, 3);
    assert forall i :: 4 <= i < |s| ==> s[i] == s[4..][i - 4];
  }

  /** Blocks are decoded exactly if all letters are in the alphabet and the letters and the `=` are full blocks. */
  lemma {:induction false} BlocksDecodeIff(s: string, equals: nat)
    requires equals <= 2
    ensures DecodeBlocks(s, equals).Some? <==> s != "" && (|s| + equals) % 4 == 0 && AllLetters(s)
    decreases |s|
  {
    if |s| > 4 {
      LettersSplit(s);
      BlocksDecodeIff(s[4..], equals);
      NextDecodes(s, equals);
    } else {
      LastDecodes(s, equals);
    }
  }

  lemma NextDecodes(s: string, equals: nat)
    requires |s| > 4
    ensures DecodeBlocks(s, equals).Some? <==> Triple(s, 3).Some? && DecodeBlocks(s[4..], equals).Some?
    ensures (|s| + equals) % 4 == (|s[4..]| + equals) % 4
  {
  }

  lemma LastDecodes(s: string, equals: nat)
    requires |s| <= 4 && equals <= 2
    ensures DecodeBlocks(s, equals).Some? <==> s != "" && (|s| + equals) % 4 == 0 && AllLetters(s)
  {
    if |s| >= 2 && |s| + equals == 4 {
      TripleIsNumber(s, |s| - 1);
      assert AllLetters(s) <==> forall i :: 0 <= i <= |s| - 1 ==> Index(s[i]) >= 0;
    }
  }

  /** What is accepted: at most two `=`, and what stands before the first is not empty, all letters, and with the `=`
      a number of full blocks. */
  lemma DecodeIff(source: string)
    ensures Decode(source).Some?
            <==> CountEquals(source) <= 2 && Cut(source) != ""
                 && (|Cut(source)| + CountEquals(source)) % 4 == 0 && AllLetters(Cut(source))
  {
    if CountEquals(source) <= 2 {
      BlocksDecodeIff(Cut(source), CountEquals(source));
    }
  }

  lemma NextBlock(quad: string, head: Bytes, rest: string, equals: nat)
    requires |quad| == 4 && rest != "" && Triple(quad + rest, 3) == Some(head)
    ensures DecodeBlocks(quad + rest, equals) == Prepended(head, DecodeBlocks(rest, equals))
  {
    assert (quad + rest)[4..] == rest;
  }

  lemma LastIsRead(s: Bytes)
    requires 1 <= |s| <= 3
    ensures DecodeBlocks(Quad(s)[..|s| + 1], |Padding(|s|)|) == Some(s)
  {
    var letters := Quad(s)[..|s| + 1];
    assert letters + "" == letters;
    QuadIsRead(s, "");
    PaddingLength(|s|);
    LastTriple(letters, 3 - |s|);
  }

  lemma PaddingLength(n: nat)
    requires 1 <= n <= 3
    ensures |Padding(n)| == 3 - n
  {
    assert n == 1 || n == 2 || n == 3;
  }

  lemma LastTriple(letters: string, equals: nat)
    requires 2 <= |letters| <= 4 && |letters| + equals == 4
    ensures DecodeBlocks(letters, equals) == Triple(letters, |letters| - 1)
  {
  }

  lemma FirstIsRead(head: Bytes, tail: Bytes)
    requires |head| == 3 && tail != []
    ensures DecodeBlocks(Quad(head) + Letters(tail), |Padding(|tail|)|)
         == Prepended(head, DecodeBlocks(Letters(tail), |Padding(|tail|)|))
  {
    QuadIsRead(head, Letters(tail));
    assert Quad(head)[..4] == Quad(head);
    assert Letters(tail) != "";
    NextBlock(Quad(head), head, Letters(tail), |Padding(|tail|)|);
  }

  lemma {:induction false} BlocksAreRead(s: Bytes, letters: string, equals: nat)
    requires s != [] && letters == Letters(s) && equals == |Padding(|s|)|
    ensures DecodeBlocks(letters, equals) == Some(s)
  {
    if |s| <= 3 {
      LastIsRead(s);
    } else {
      var head, tail := s[..3], s[3..];
      assert |Padding(|tail|)| == equals;
      BlocksAreRead(tail, Letters(tail), equals);
      FirstIsRead(head, tail);
      assert head + tail == s;
    }
  }

  /** Decoding an encoding gives back the bytes, for all but the empty sequence, whose encoding the decoder
      refuses. */
  lemma RoundTrip(s: Bytes)
    ensures Decode(Encode(s)) == if s == [] then None else Some(s)
  {
    EncodeIsLetters(s);
    PaddingIsFound(Letters(s), |s|);
    if s != [] {
      BlocksAreRead(s, Letters(s), |Padding(|s|)|);
    }
  }

  /** Four characters for every three bytes begun, and with the terminator no more than is allocated. */
  function Allocated(len: nat): nat {
    (4 * (len + (3 - len % 3))) / 3 + 1
  }

  lemma {:induction false} EncodedLength(s: Bytes)
    ensures |Encode(s)| == 4 * ((|s| + 2) / 3) && |Encode(s)| + 1 <= Allocated(|s|)
  {
    if |s| > 3 {
      EncodedLength(s[3..]);
      var n := |s|;
      assert (n + 2) / 3 == (n - 3 + 2) / 3 + 1;
    }
    AllocatedIsEnough(|s|);
  }

  lemma AllocatedIsEnough(n: nat)
    ensures 4 * ((n + 2) / 3) + 1 <= Allocated(n)
  {
    var q, r := n / 3, n % 3;
    assert n == 3 * q + r && Allocated(n) == 4 * (q + 1) + 1;
  }

  // ----- the loops

  /** `_bin_to_base64` into `dest` at `p` */
  method BinToQuad(dest: array<char>, p: nat, source: Bytes)
    requires 1 <= |source| <= 3 && p + 4 <= dest.Length
    modifies dest
    ensures dest[..] == old(dest[..p]) + Quad(source) + old(dest[p + 4..])
  {
    var a, b, c: int := source[0], 0, 0;
    dest[p] := Letter(a / 4);
    if |source| > 1 {
      b := source[1];
    }
    dest[p + 1] := Letter(b / 16 + a % 4 * 16);
    if |source| > 2 {
      c := source[2];
    }
    dest[p + 2] := if |source| > 1 then Letter(c / 64 + b % 16 * 4) else '=';
    dest[p + 3] := if |source| > 2 then Letter(c % 64) else '=';
  }

  /** `bin_to_base64`: the encoding and a terminating NUL in the memory allocated for it */
  method BinToBase64(source: Bytes) returns (base64: array<char>)
    ensures fresh(base64) && base64.Length == Allocated(|source|)
    ensures |Encode(source)| < base64.Length
    ensures base64[..|Encode(source)|] == Encode(source) && base64[|Encode(source)|] == 0 as char
  {
    EncodedLength(source);
    base64 := new char[Allocated(|source|)];
    var ptr, rest := 0, source;
    while rest != []
      invariant ptr + |Encode(rest)| == |Encode(source)| && base64[..ptr] + Encode(rest) == Encode(source)
      decreases |rest|
      modifies base64
    {
      var head := if |rest| > 3 then rest[..3] else rest;
      var tail := if |rest| > 3 then rest[3..] else [];
      FirstQuad(base64[..ptr], rest, head, tail);
      BinToQuad(base64, ptr, head);
      ptr, rest := ptr + 4, tail;
    }
    base64[ptr] := 0 as char;
  }

  lemma FirstQuad(done: string, rest: Bytes, head: Bytes, tail: Bytes)
    requires rest != []
    requires head == (if |rest| > 3 then rest[..3] else rest) && tail == (if |rest| > 3 then rest[3..] else [])
    ensures |Encode(rest)| == 4 + |Encode(tail)|
    ensures done + Encode(rest) == done + Quad(head) + Encode(tail)
  {
    assert Encode(rest) == Quad(head) + Encode(tail);
    Join(done, Quad(head), Encode(tail));
  }

  lemma Join(a: string, b: string, c: string)
    ensures a + b + c == a + (b + c)
  {
  }

  /** `get_equals`: the number of `=`; each is overwritten with NUL. */
  method GetEquals(s: array<char>) returns (num: nat)
    modifies s
    ensures num == CountEquals(old(s[..]))
    ensures forall i :: 0 <= i < s.Length ==> s[i] == if old(s[i]) == '=' then 0 as char else old(s[i])
  {
    num := 0;
    var ptr := 0;
    assert s[..][0..] == s[..];
    while ptr < s.Length
      invariant ptr <= s.Length && num + CountEquals(old(s[..])[ptr..]) == CountEquals(old(s[..]))
      invariant forall i :: 0 <= i < s.Length ==> s[i] == if i < ptr && old(s[i]) == '=' then 0 as char else old(s[i])
    {
      assert old(s[..])[ptr..][1..] == old(s[..])[ptr + 1..];
      if s[ptr] == '=' {
        num := num + 1;
        s[ptr] := 0 as char;
      }
      ptr := ptr + 1;
    }
  }

  lemma {:induction false} CutAt(s: string, len: nat)
    requires len <= |s| && (forall i :: 0 <= i < len ==> s[i] != '=') && (len < |s| ==> s[len] == '=')
    ensures Cut(s) == s[..len]
  {
    if len > 0 {
      CutAt(s[1..], len - 1);
      assert [s[0]] + s[1..][..len - 1] == s[..len];
    }
  }

  /** `base64_to_bin`; the copy of the string has NULs for its `=` when the blocks are read. */
  method Base64ToBin(source: string) returns (r: Option<Bytes>)
    requires forall i :: 0 <= i < |source| ==> source[i] != 0 as char
    ensures r == Decode(source)
  {
    var base64 := new char[|source|](i requires 0 <= i < |source| => source[i]);
    assert base64[..] == source;
    var equals := GetEquals(base64);
    if equals > 2 {
      return None;
    }
    var len := Length(base64, source);
    r := ReadBlocks(base64[..len], equals);
  }

  /** The loop of `base64_to_bin`. */
  method ReadBlocks(letters: string, equals: nat) returns (r: Option<Bytes>)
    ensures r == DecodeBlocks(letters, equals)
  {
    var ptr, buffer := letters, [];
    NothingBefore(DecodeBlocks(ptr, equals));
    while |ptr| > 4
      invariant DecodeBlocks(letters, equals) == Prepended(buffer, DecodeBlocks(ptr, equals))
      decreases |ptr|
    {
      var block := Triple(ptr, 3);
      if block.None? {
        return None;
      }
      PrependedTwice(buffer, block.value, DecodeBlocks(ptr[4..], equals));
      buffer, ptr := buffer + block.value, ptr[4..];
    }
    var last := LastBlock(ptr, equals);
    return Prepended(buffer, last);
  }

  lemma NothingBefore(r: Option<Bytes>)
    ensures Prepended([], r) == r
  {
    if r.Some? {
      assert [] + r.value == r.value;
    }
  }

  lemma PrependedTwice(a: Bytes, b: Bytes, r: Option<Bytes>)
    ensures Prepended(a, Prepended(b, r)) == Prepended(a + b, r)
  {
    if r.Some? {
      assert a + (b + r.value) == a + b + r.value;
    }
  }

  /** The three ways a text may end, by the letters left. */
  method LastBlock(ptr: string, equals: nat) returns (r: Option<Bytes>)
    requires |ptr| <= 4
    ensures r == DecodeBlocks(ptr, equals)
  {
    match |ptr| {
      case 4 =>
        if equals != 0 {
          return None;
        }
        return Triple(ptr, 3);
      case 2 =>
        if equals != 2 {
          return None;
        }
        return Triple(ptr, 1);
      case 3 =>
        if equals != 1 {
          return None;
        }
        return Triple(ptr, 2);
      case _ =>
        return None;
    }
  }

  /** `strlen` of the string with NULs for its `=` */
  method Length(base64: array<char>, ghost source: string) returns (len: nat)
    requires base64.Length == |source|
    requires forall i :: 0 <= i < |source| ==> source[i] != 0 as char
    requires forall i :: 0 <= i < |source| ==> base64[i] == if source[i] == '=' then 0 as char else source[i]
    ensures len <= |source| && base64[..len] == Cut(source)
  {
    len := 0;
    while len < base64.Length && base64[len] != 0 as char
      invariant len <= base64.Length && forall i :: 0 <= i < len ==> source[i] != '='
    {
      len := len + 1;
    }
    CutAt(source, len);
    assert base64[..len] == source[..len];
  }
}

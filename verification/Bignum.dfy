/** Decimal conversion of big integers (libssh/gcrypt_missing.c). */
module Bignum {
  import opened Powers

  // ----- decimal notation

  predicate IsDigits(s: string) {
    forall i :: 0 <= i < |s| ==> '0' <= s[i] <= '9'
  }

  function DigitValue(c: char): int {
    c as int - '0' as int
  }

  function DigitChar(d: nat): char
    requires d < 10
  {
    '0' + d as char
  }

  /** The number a digit string denotes. */
  function Value(s: string): int {
    if s == [] then 0 else 10 * Value(s[..|s| - 1]) + DigitValue(s[|s| - 1])
  }

  /** The shortest digit string of a number. */
  function Decimal(n: nat): string {
    if n < 10 then [DigitChar(n)] else Decimal(n / 10) + [DigitChar(n % 10)]
  }

  predicate Canonical(s: string) {
    IsDigits(s) && s != [] && (s[0] == '0' ==> |s| == 1)
  }

  lemma {:induction false} DecimalIsCanonical(n: nat)
    ensures Canonical(Decimal(n)) && Value(Decimal(n)) == n
    ensures n > 0 ==> Decimal(n)[0] != '0'
  {
    if n < 10 {
      assert [DigitChar(n)][..0] == [];
    } else {
      DecimalIsCanonical(n / 10);
      assert Decimal(n)[..|Decimal(n)| - 1] == Decimal(n / 10);
    }
  }

  lemma {:induction false} ValueNotNegative(s: string)
    requires IsDigits(s)
    ensures Value(s) >= 0
    ensures s != [] && s[0] != '0' ==> Value(s) > 0
  {
    if s != [] {
      ValueNotNegative(s[..|s| - 1]);
    }
  }

  /** Each number has one canonical notation. */
  lemma {:induction false} CanonicalIsDecimal(s: string)
    requires Canonical(s)
    ensures Value(s) >= 0 && Decimal(Value(s)) == s
  {
    ValueNotNegative(s);
    var front, d := s[..|s| - 1], DigitValue(s[|s| - 1]);
    if |s| == 1 {
      assert front == [] && Value(s) == d;
      assert s == [DigitChar(d)];
    } else {
      assert Canonical(front);
      CanonicalIsDecimal(front);
      ValueNotNegative(front);
      assert Value(s) / 10 == Value(front) && Value(s) % 10 == d;
      assert s == front + [DigitChar(d)];
    }
  }

  // ----- bits

  /** `gcry_mpi_get_nbits` */
  function NBits(n: nat): nat {
    if n == 0 then 0 else 1 + NBits(n / 2)
  }

  function ShiftRight(n: nat, k: nat): nat {
    if k == 0 then n else ShiftRight(n / 2, k - 1)
  }

  /** `gcry_mpi_test_bit` */
  function TestBit(n: nat, k: nat): bool {
    ShiftRight(n, k) % 2 == 1
  }

  lemma {:induction false} NBitsBound(n: nat)
    ensures n < Pow(2, NBits(n)) && ShiftRight(n, NBits(n)) == 0
  {
    if n > 0 {
      NBitsBound(n / 2);
    }
  }

  lemma {:induction false} NextBit(n: nat, k: nat)
    ensures ShiftRight(n, k) == 2 * ShiftRight(n, k + 1) + if TestBit(n, k) then 1 else 0
    decreases k
  {
    if k > 0 {
      NextBit(n / 2, k - 1);
    } else {
      assert ShiftRight(n, 1) == ShiftRight(n / 2, 0) == n / 2;
    }
  }

  /** The number of digits `my_gcry_bn2dec` reserves for a number of `b` bits. */
  function Reserved(b: nat): nat {
    var size := b * 3;
    size / 10 + size / 1000 + 2
  }

  /** The reserve is more than 13/43 of the bits, and 13 digits hold 43 bits. */
  lemma ReservedIsEnough(b: nat)
    ensures Pow(2, b) <= Pow(10, Reserved(b))
  {
    var r := Reserved(b);
    assert 13 * b <= 43 * r;
    PowMul(10, r, 43);
    PowMul(2, b, 43);
    PowMul(2, 43, b);
    PowMul(10, 13, b);
    FortyThreeBits();
    PowMonotone(Pow(2, 43), Pow(10, 13), b);
    PowLonger(10, 13 * b, 43 * r);
    assert b * 43 == 43 * b && r * 43 == 43 * r;
    PowReflects(Pow(2, b), Pow(10, r), 43);
  }

  lemma FortyThreeBits()
    ensures Pow(2, 43) <= Pow(10, 13)
  {
    assert Pow(2, 1) == 2 && Pow(2, 2) == 4 && Pow(2, 3) == 8;
    PowAdd(2, 2, 3);
    PowAdd(2, 5, 5);
    PowAdd(2, 10, 10);
    PowAdd(2, 20, 20);
    PowAdd(2, 40, 3);
    assert Pow(10, 1) == 10 && Pow(10, 2) == 100 && Pow(10, 3) == 1000;
    PowAdd(10, 3, 3);
    PowAdd(10, 6, 6);
    PowAdd(10, 12, 1);
  }

  lemma DigitsFit(n: nat)
    ensures n < Pow(10, Reserved(NBits(n)))
  {
    NBitsBound(n);
    ReservedIsEnough(NBits(n));
  }

  // ----- the conversions

  /** `my_gcry_dec2bn`: returns the number and how many characters were read. Characters are not checked:
      those below '0' count as huge unsigned numbers. */
  method Dec2Bn(data: string) returns (bn: int, count: nat)
    ensures count == |data| && bn >= 0
    ensures (forall i :: 0 <= i < |data| ==> data[i] >= '0') ==> bn == Value(data)
  {
    bn := 0;
    count := 0;
    while count < |data|
      invariant count <= |data| && bn >= 0
      invariant (forall i :: 0 <= i < count ==> data[i] >= '0') ==> bn == Value(data[..count])
    {
      assert data[..count + 1][..count] == data[..count];
      bn := bn * 10;
      bn := bn + DigitValue(data[count]) % 0x1_0000_0000_0000_0000;
      count := count + 1;
    }
    assert data[..count] == data;
  }

  /** The inner loop of `my_gcry_bn2dec`: a small number is put together from its bits. */
  method FromBits(num: nat) returns (decnum: nat)
    ensures decnum == num
  {
    decnum := 0;
    var count := NBits(num);
    NBitsBound(num);
    while count > 0
      invariant decnum == ShiftRight(num, count)
    {
      NextBit(num, count - 1);
      decnum := decnum * 2;
      decnum := decnum + if TestBit(num, count - 1) then 1 else 0;
      count := count - 1;
    }
  }

  /** `my_gcry_bn2dec` */
  method Bn2Dec(bn: nat) returns (s: string)
    ensures s == Decimal(bn)
  {
    var size := NBits(bn) * 3;
    var rsize := size / 10 + size / 1000 + 2;
    var ret := new char[rsize + 1](_ => '\0');
    if bn == 0 {
      return "0";
    }
    DigitsFit(bn);
    ghost var rest, digits := ProduceDigits(ret, rsize, bn);
    s := Strip(ret, rsize);
    WhatRemains(bn, rest, digits, s);
  }

  /** The loop of `my_gcry_bn2dec` that fills the buffer with digits from the back. */
  method ProduceDigits(ret: array<char>, rsize: nat, bn: nat) returns (ghost rest: nat, ghost digits: string)
    requires rsize < ret.Length
    modifies ret
    ensures ret[..rsize] == digits && |digits| == rsize && Produced(bn, rest, digits)
  {
    var bndup, count := bn, rsize;
    digits := [];
    while count > 0
      invariant 0 <= count <= rsize && |digits| == rsize - count
      invariant forall i :: count <= i < rsize ==> ret[i] == digits[i - count]
      invariant Produced(bn, bndup, digits)
    {
      var num := bndup % 10;
      OneMoreDigit(bn, bndup, digits);
      bndup := bndup / 10;
      var decnum := FromBits(num);
      ret[count - 1] := DigitChar(decnum);
      digits := [DigitChar(num)] + digits;
      count := count - 1;
    }
    rest := bndup;
  }

  /** All digits produced and leading zeros dropped, what remains is the decimal notation. */
  lemma WhatRemains(n: nat, rest: nat, digits: string, s: string)
    requires Produced(n, rest, digits) && 0 < n < Pow(10, |digits|)
    requires |s| <= |digits| && s == digits[|digits| - |s|..] && (s != [] ==> s[0] != '0')
    requires forall i :: 0 <= i < |digits| - |s| ==> digits[i] == '0'
    ensures s == Decimal(n)
  {
    NothingLeft(n, rest, digits);
    StripKeepsValue(digits, |digits| - |s|);
    CanonicalIsDecimal(s);
  }

  /** The last two loops of `my_gcry_bn2dec`: leading zeros are found and the rest moved to the front. */
  method Strip(ret: array<char>, rsize: nat) returns (s: string)
    requires rsize < ret.Length && IsDigits(ret[..rsize])
    modifies ret
    ensures |s| <= rsize && s == old(ret[..rsize])[rsize - |s|..]
    ensures forall i :: 0 <= i < rsize - |s| ==> old(ret[i]) == '0'
    ensures s != [] ==> s[0] != '0'
  {
    ghost var digits := ret[..rsize];
    var count := 0;
    while count < rsize && ret[count] == '0'
      invariant count <= rsize && forall i :: 0 <= i < count ==> ret[i] == '0'
    {
      count := count + 1;
    }
    var count2 := 0;
    while count2 < rsize - count
      invariant count2 <= rsize - count
      invariant ret[..count2] == digits[count..count + count2]
      invariant forall i :: count2 <= i < rsize ==> ret[i] == digits[i]
    {
      ret[count2] := ret[count2 + count];
      count2 := count2 + 1;
    }
    ret[count2] := '\0';
    s := ret[..count2];
  }

  lemma {:induction false} ValueFirst(d: char, s: string)
    ensures Value([d] + s) == DigitValue(d) * Pow(10, |s|) + Value(s)
  {
    if s == [] {
      assert ([d] + s)[..0] == [];
    } else {
      assert ([d] + s)[..|s|] == [d] + s[..|s| - 1];
      ValueFirst(d, s[..|s| - 1]);
      assert 10 * (DigitValue(d) * Pow(10, |s| - 1)) == DigitValue(d) * (10 * Pow(10, |s| - 1));
    }
  }

  /** `digits` are the low digits of `n`, and `rest` is what dividing has left of it. */
  ghost predicate Produced(n: nat, rest: nat, digits: string) {
    IsDigits(digits) && n == rest * Pow(10, |digits|) + Value(digits)
  }

  lemma OneMoreDigit(n: nat, rest: nat, digits: string)
    requires Produced(n, rest, digits)
    ensures Produced(n, rest / 10, [DigitChar(rest % 10)] + digits)
  {
    var p, q, d := Pow(10, |digits|), rest / 10, rest % 10;
    ValueFirst(DigitChar(d), digits);
    assert Pow(10, |digits| + 1) == 10 * p;
    assert rest == q * 10 + d;
    Distribute(q, d, p);
  }

  lemma Distribute(q: int, d: int, p: int)
    ensures (q * 10 + d) * p == q * (10 * p) + d * p
  {}

  lemma NothingLeft(n: nat, rest: nat, digits: string)
    requires Produced(n, rest, digits) && n < Pow(10, |digits|)
    ensures IsDigits(digits) && Value(digits) == n
  {
    ValueNotNegative(digits);
    if rest > 0 {
      MulLess(1, Pow(10, |digits|), rest, Pow(10, |digits|));
    }
  }

  /** Leading zeros do not count, and a positive number leaves something else. */
  lemma {:induction false} StripKeepsValue(s: string, k: nat)
    requires k <= |s| && forall i :: 0 <= i < k ==> s[i] == '0'
    ensures Value(s[k..]) == Value(s)
    decreases k
  {
    if k == 0 {
      assert s[0..] == s;
    } else {
      assert s == [s[0]] + s[1..];
      ValueFirst(s[0], s[1..]);
      StripKeepsValue(s[1..], k - 1);
      assert s[1..][k - 1..] == s[k..];
    }
  }

  /** Converting a number to decimal and back gives the number, and the other way round gives back any
      digit string without leading zeros. */
  method RoundTrip(n: nat, s: string) returns (m: int, t: string)
    requires Canonical(s)
    ensures m == n && t == s
  {
    var dec := Bn2Dec(n);
    DecimalIsCanonical(n);
    var read: nat;
    m, read := Dec2Bn(dec);
    var value: int;
    value, read := Dec2Bn(s);
    CanonicalIsDecimal(s);
    t := Bn2Dec(value);
  }
}

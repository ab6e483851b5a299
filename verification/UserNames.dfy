/** User names and the hash that lib/ucache.c files them under. */
module UserNames {

  const IDLEN := 12
  /** `int hash[26][26][256]`, laid out in one row. */
  const BUCKETS := 26 * 26 * 256

  /** Names a user may register with, as far as the index depends on them. */
  predicate GoodName(s: string) {
    2 <= |s| <= IDLEN && Ascii(s)
  }

  predicate Ascii(s: string) {
    forall i :: 0 <= i < |s| ==> 0 < s[i] as int < 128
  }

  function ToUpper(c: char): char {
    if 'a' <= c <= 'z' then c - 'a' + 'A' else c
  }

  function Upper(s: string): string {
    seq(|s|, i requires 0 <= i < |s| => ToUpper(s[i]))
  }

  predicate SameName(s: string, t: string) {
    Upper(s) == Upper(t)
  }

  /** The same character, or the same letter in both cases, which are 32 apart. */
  predicate SameLetter(c: char, d: char) {
    || c == d
    || ('A' <= c <= 'Z' && d as int == c as int + 32)
    || ('A' <= d <= 'Z' && c as int == d as int + 32)
  }

  predicate EqualIgnoringCase(s: string, t: string) {
    |s| == |t| && forall i :: 0 <= i < |s| ==> SameLetter(s[i], t[i])
  }

  /** What the comparison means: equal length and the same letters at every place. */
  lemma SameNameMeans(s: string, t: string)
    ensures SameName(s, t) <==> EqualIgnoringCase(s, t)
  {
    forall c: char, d: char ensures ToUpper(c) == ToUpper(d) <==> SameLetter(c, d) {
      SameLetterMeans(c, d);
    }
    if SameName(s, t) {
      SameNameCharByChar(s, t);
    }
    if EqualIgnoringCase(s, t) {
      forall i | 0 <= i < |s| ensures Upper(s)[i] == Upper(t)[i] {
        SameLetterMeans(s[i], t[i]);
      }
      assert Upper(s) == Upper(t);
    }
  }

  lemma SameLetterMeans(c: char, d: char)
    ensures ToUpper(c) == ToUpper(d) <==> SameLetter(c, d)
  {}

  function Cut(s: string, n: nat): string {
    if |s| > n then s[..n] else s
  }

  /** `!strncasecmp(s, t, n)` */
  predicate StrNCaseEqual(s: string, t: string, n: nat) {
    SameName(Cut(s, n), Cut(t, n))
  }

  /** Comparing one byte more than a stored name can have compares whole names. */
  lemma StoredNameComparison(s: string, t: string)
    requires |t| <= IDLEN
    ensures StrNCaseEqual(s, t, IDLEN + 1) <==> SameName(s, t)
  {
    if |s| > IDLEN + 1 {
      assert |Upper(Cut(s, IDLEN + 1))| == IDLEN + 1 && |Upper(s)| == |s|;
    }
  }

  function LetterIndex(c: char): (i: nat)
    ensures i < 26
  {
    if 'a' <= c <= 'z' then (c - 'a') as nat
    else if 'A' <= c <= 'Z' then (c - 'A') as nat
    else 0
  }

  function SumUpper(s: string): nat {
    if s == [] then 0 else SumUpper(s[..|s| - 1]) + ToUpper(s[|s| - 1]) as nat
  }

  /** The position of `hash[a1][a2][key]`. */
  function Bucket(s: string): (b: nat)
    requires |s| >= 2
    ensures b < BUCKETS
  {
    (LetterIndex(s[0]) * 26 + LetterIndex(s[1])) * 256 + SumUpper(s[2..]) % 256
  }

  /** `c` is letter number `i` of the alphabet, in either case; other characters count as the first letter. */
  predicate IsLetter(c: char, i: nat) {
    if 'a' <= c <= 'z' then c as int == 97 + i else if 'A' <= c <= 'Z' then c as int == 65 + i else i == 0
  }

  /** `uhashkey` */
  method UHashKey(userid: string) returns (a1: nat, a2: nat, key: nat)
    requires |userid| >= 2
    ensures a1 < 26 && a2 < 26 && key < 256
    ensures IsLetter(userid[0], a1) && IsLetter(userid[1], a2)
    ensures (a1 * 26 + a2) * 256 + key == Bucket(userid)
  {
    var c := userid[0];
    if 'a' <= c <= 'z' {
      a1 := (c - 'a') as nat;
    } else if 'A' <= c <= 'Z' {
      a1 := (c - 'A') as nat;
    } else {
      a1 := 0;
    }
    c := userid[1];
    if 'a' <= c <= 'z' {
      a2 := (c - 'a') as nat;
    } else if 'A' <= c <= 'Z' {
      a2 := (c - 'A') as nat;
    } else {
      a2 := 0;
    }
    var sum, i := 0, 2;
    while i < |userid|
      invariant 2 <= i <= |userid| && sum == SumUpper(userid[2..i])
    {
      assert userid[2..i + 1][..i - 2] == userid[2..i];
      sum := sum + ToUpper(userid[i]) as nat;
      i := i + 1;
    }
    assert userid[2..] == userid[2..|userid|];
    key := sum % 256;
  }

  /** The third part of the bucket: 0 for two letters, and one more character adds its code as a capital. */
  lemma BucketByCharacter(s: string, c: char)
    requires |s| >= 2
    ensures |s| == 2 ==> Bucket(s) % 256 == 0
    ensures Bucket(s + [c]) / 256 == Bucket(s) / 256
    ensures Bucket(s + [c]) % 256 == (Bucket(s) + c as int - if 'a' <= c <= 'z' then 32 else 0) % 256
  {
    assert (s + [c])[2..] == s[2..] + [c] && (s[2..] + [c])[..|s| - 2] == s[2..];
    var high, sum, code := LetterIndex(s[0]) * 26 + LetterIndex(s[1]), SumUpper(s[2..]), ToUpper(c) as int;
    assert SumUpper((s + [c])[2..]) == sum + code;
    PartsOf(high, sum);
    PartsOf(high, sum + code);
    assert code == c as int - if 'a' <= c <= 'z' then 32 else 0;
    assert (sum % 256 + high * 256 + code) % 256 == (sum + code) % 256;
  }

  lemma PartsOf(high: nat, low: nat)
    ensures (high * 256 + low % 256) / 256 == high && (high * 256 + low % 256) % 256 == low % 256
  {}

  /** Names that differ only in case share a bucket, so a search looks where they are filed. */
  lemma SameNameSameBucket(s: string, t: string)
    requires |s| >= 2
    ensures SameName(s, t) ==> |t| == |s| && Bucket(s) == Bucket(t)
  {
    if SameName(s, t) {
      SameNameCharByChar(s, t);
      SumUpperIgnoresCase(s[2..], t[2..]);
    }
  }

  lemma SameNameCharByChar(s: string, t: string)
    requires SameName(s, t)
    ensures |s| == |t| && forall i :: 0 <= i < |s| ==> ToUpper(s[i]) == ToUpper(t[i])
  {
    assert |s| == |Upper(s)| == |Upper(t)| == |t|;
    assert forall i :: 0 <= i < |s| ==> ToUpper(s[i]) == Upper(s)[i] == Upper(t)[i] == ToUpper(t[i]);
  }

  lemma {:induction false} SumUpperIgnoresCase(s: string, t: string)
    requires |s| == |t| && forall i :: 0 <= i < |s| ==> ToUpper(s[i]) == ToUpper(t[i])
    ensures SumUpper(s) == SumUpper(t)
  {
    if s != [] {
      SumUpperIgnoresCase(s[..|s| - 1], t[..|t| - 1]);
    }
  }
}

/** Fixed-length records compared by a key (lib/record.c), their order, and what merging and filtering
    them means. */
module Records {

  datatype Record = Record(key: int, body: string)

  /** `record_cmp_t` */
  function Cmp(a: Record, b: Record): int {
    if a.key < b.key then -1 else if a.key == b.key then 0 else 1
  }

  ghost predicate Sorted(s: seq<Record>) {
    forall i, j :: 0 <= i < j < |s| ==> s[i].key <= s[j].key
  }

  function Front(s: seq<Record>): seq<Record>
    requires s != []
  {
    s[..|s| - 1]
  }

  function Last(s: seq<Record>): Record
    requires s != []
  {
    s[|s| - 1]
  }

  /** The records of `s` with key `k`, in order. */
  function OfKey(s: seq<Record>, k: int): seq<Record> {
    if s == [] then [] else OfKey(Front(s), k) + IfKey(Last(s), k)
  }

  function IfKey(x: Record, k: int): seq<Record> {
    if x.key == k then [x] else []
  }

  lemma OfKeyLast(s: seq<Record>, x: Record, k: int)
    ensures OfKey(s + [x], k) == OfKey(s, k) + IfKey(x, k)
  {
    assert Front(s + [x]) == s;
  }

  lemma SortedLast(s: seq<Record>, x: Record)
    requires Sorted(s) && forall r :: r in multiset(s) ==> r.key <= x.key
    ensures Sorted(s + [x])
  {
    forall i | 0 <= i < |s| ensures s[i].key <= x.key {
      assert s[i] in multiset(s);
    }
  }

  lemma FrontLast(s: seq<Record>)
    requires s != []
    ensures s == Front(s) + [Last(s)] && multiset(s) == multiset(Front(s)) + multiset{Last(s)}
  {
    assert s == Front(s) + [Last(s)];
  }

  lemma LastIsLargest(s: seq<Record>)
    requires Sorted(s) && s != []
    ensures forall r :: r in multiset(s) ==> r.key <= Last(s).key
  {
    forall r | r in multiset(s) ensures r.key <= Last(s).key {
      var i :| 0 <= i < |s| && s[i] == r;
    }
  }

  // ----- sorting, for `qsort`

  function Insert(s: seq<Record>, r: Record): seq<Record> {
    if s == [] || Last(s).key <= r.key then s + [r] else Insert(Front(s), r) + [Last(s)]
  }

  function Sort(s: seq<Record>): seq<Record> {
    if s == [] then [] else Insert(Sort(Front(s)), Last(s))
  }

  lemma {:induction false} InsertFacts(s: seq<Record>, r: Record)
    requires Sorted(s)
    ensures Sorted(Insert(s, r))
    ensures multiset(Insert(s, r)) == multiset(s) + multiset{r}
  {
    if s == [] {
    } else if Last(s).key <= r.key {
      LastIsLargest(s);
      SortedLast(s, r);
    } else {
      FrontLast(s);
      LastIsLargest(s);
      InsertFacts(Front(s), r);
      SortedLast(Insert(Front(s), r), Last(s));
    }
  }

  lemma {:induction false} SortFacts(s: seq<Record>)
    ensures Sorted(Sort(s)) && multiset(Sort(s)) == multiset(s)
  {
    if s != [] {
      SortFacts(Front(s));
      InsertFacts(Sort(Front(s)), Last(s));
      FrontLast(s);
    }
  }

  // ----- merging

  /** The last record of a merge is a new one. */
  predicate EndsNew(before: seq<Record>, added: seq<Record>)
    requires added != []
  {
    before == [] || Last(before).key <= Last(added).key
  }

  /** The merge `record_merge` builds from the back; of equal keys the old records come first. */
  function Merge(before: seq<Record>, added: seq<Record>): seq<Record>
    decreases |before| + |added|
  {
    if added == [] then before
    else if EndsNew(before, added) then Merge(before, Front(added)) + [Last(added)]
    else Merge(Front(before), added) + [Last(before)]
  }

  lemma {:induction false} MergeMembers(a: seq<Record>, b: seq<Record>)
    ensures |Merge(a, b)| == |a| + |b|
    ensures multiset(Merge(a, b)) == multiset(a) + multiset(b)
    decreases |a| + |b|
  {
    if b == [] {
    } else if EndsNew(a, b) {
      MergeMembers(a, Front(b));
      FrontLast(b);
    } else {
      MergeMembers(Front(a), b);
      FrontLast(a);
    }
  }

  lemma {:induction false} MergeSorted(a: seq<Record>, b: seq<Record>)
    requires Sorted(a) && Sorted(b)
    ensures Sorted(Merge(a, b))
    decreases |a| + |b|
  {
    if b == [] {
    } else if EndsNew(a, b) {
      MergeSorted(a, Front(b));
      LastOfMerge(a, Front(b), Last(b));
    } else {
      MergeSorted(Front(a), b);
      LastOfMerge(Front(a), b, Last(a));
    }
  }

  lemma LastOfMerge(a: seq<Record>, b: seq<Record>, x: Record)
    requires Sorted(a) && Sorted(b) && Sorted(Merge(a, b))
    requires (a != [] ==> Last(a).key <= x.key) && (b != [] ==> Last(b).key <= x.key)
    ensures Sorted(Merge(a, b) + [x])
  {
    MergeMembers(a, b);
    if a != [] { LastIsLargest(a); }
    if b != [] { LastIsLargest(b); }
    SortedLast(Merge(a, b), x);
  }

  /** Of every key the merge holds first the old records, then the new ones, each in their order. With
      being sorted, this determines it. */
  lemma {:induction false} MergeOldBeforeNew(a: seq<Record>, b: seq<Record>, k: int)
    requires Sorted(a) && Sorted(b)
    ensures OfKey(Merge(a, b), k) == OfKey(a, k) + OfKey(b, k)
    decreases |a| + |b|
  {
    if b == [] {
    } else if EndsNew(a, b) {
      MergeOldBeforeNew(a, Front(b), k);
      OfKeyLast(Merge(a, Front(b)), Last(b), k);
      Regroup(OfKey(a, k), OfKey(Front(b), k), IfKey(Last(b), k));
    } else {
      MergeOldBeforeNew(Front(a), b, k);
      OfKeyLast(Merge(Front(a), b), Last(a), k);
      NothingBehind(a, b, k);
    }
  }

  lemma NothingBehind(a: seq<Record>, b: seq<Record>, k: int)
    requires Sorted(b) && b != [] && !EndsNew(a, b)
    ensures OfKey(b, k) + IfKey(Last(a), k) == IfKey(Last(a), k) + OfKey(b, k)
    ensures OfKey(Front(a), k) + OfKey(b, k) + IfKey(Last(a), k) == OfKey(a, k) + OfKey(b, k)
  {
    if k == Last(a).key {
      NoneAbove(b, k);
    }
  }

  lemma {:induction false} NoneAbove(b: seq<Record>, k: int)
    requires Sorted(b) && (b != [] ==> Last(b).key < k)
    ensures OfKey(b, k) == []
  {
    if b != [] {
      NoneAbove(Front(b), k);
    }
  }

  lemma Regroup(x: seq<Record>, y: seq<Record>, z: seq<Record>)
    ensures x + y + z == x + (y + z)
  {}

  /** Merging so far: `i` old and `j` new records are left, `tail` is done. */
  ghost predicate MergedTo(a: seq<Record>, b: seq<Record>, i: nat, j: nat, tail: seq<Record>) {
    i <= |a| && j <= |b| && Merge(a, b) == Merge(a[..i], b[..j]) + tail
  }

  lemma MergeOne(a: seq<Record>, b: seq<Record>, i: nat, j: nat, tail: seq<Record>)
    requires MergedTo(a, b, i, j, tail) && j > 0
    ensures if i == 0 || a[i - 1].key <= b[j - 1].key
            then MergedTo(a, b, i, j - 1, [b[j - 1]] + tail)
            else MergedTo(a, b, i - 1, j, [a[i - 1]] + tail)
  {
    var a', b' := a[..i], b[..j];
    assert Front(b') == b[..j - 1] && Last(b') == b[j - 1];
    assert i > 0 ==> Front(a') == a[..i - 1] && Last(a') == a[i - 1];
    if EndsNew(a', b') {
      Regroup(Merge(a', Front(b')), [Last(b')], tail);
    } else {
      Regroup(Merge(Front(a'), b'), [Last(a')], tail);
    }
  }

  /** Two sorted sequences with the same records of every key are the same. */
  lemma {:induction false} SortedUnique(s: seq<Record>, t: seq<Record>)
    requires Sorted(s) && Sorted(t) && forall k :: OfKey(s, k) == OfKey(t, k)
    ensures s == t
    decreases |s|
  {
    assert t != [] ==> OfKey(t, Last(t).key) == OfKey(s, Last(t).key);
    if s != [] {
      assert OfKey(s, Last(s).key) == OfKey(t, Last(s).key);
      assert t != [];
      assert OfKey(s, Last(t).key) == OfKey(t, Last(t).key);
      if Last(s).key < Last(t).key { NoneAbove(s, Last(t).key); }
      if Last(t).key < Last(s).key { NoneAbove(t, Last(s).key); }
      var x := OfKey(s, Last(s).key);
      assert x[|x| - 1] == Last(s) == Last(t);
      forall k ensures OfKey(Front(s), k) == OfKey(Front(t), k) {
        assert OfKey(s, k) == OfKey(t, k);
        OfKeyFront(s, k);
        OfKeyFront(t, k);
      }
      SortedUnique(Front(s), Front(t));
      FrontLast(s);
      FrontLast(t);
    }
  }

  ghost predicate DistinctKeys(s: seq<Record>) {
    forall i, j :: 0 <= i < j < |s| ==> s[i].key != s[j].key
  }

  lemma SameLast(s: seq<Record>, t: seq<Record>)
    requires Sorted(s) && Sorted(t) && DistinctKeys(s) && multiset(s) == multiset(t) && s != [] && t != []
    ensures Last(s) == Last(t)
  {
    LastIsLargest(s);
    LastIsLargest(t);
    assert Last(t) in multiset(t) && Last(s) in multiset(s);
    var i :| 0 <= i < |s| && s[i] == Last(t);
    assert s[i].key == s[|s| - 1].key;
  }

  /** Without equal keys there is only one way to sort. */
  lemma {:induction false} SortedOnce(s: seq<Record>, t: seq<Record>)
    requires Sorted(s) && Sorted(t) && DistinctKeys(s) && multiset(s) == multiset(t)
    ensures s == t
    decreases |s|
  {
    SameLength(s, t);
    if s != [] {
      SameLast(s, t);
      FrontBag(s);
      FrontBag(t);
      SortedOnce(Front(s), Front(t));
      FrontLast(s);
      FrontLast(t);
    }
  }

  lemma FrontBag(s: seq<Record>)
    requires s != []
    ensures multiset(Front(s)) == multiset(s) - multiset{Last(s)}
    ensures Sorted(s) ==> Sorted(Front(s))
    ensures DistinctKeys(s) ==> DistinctKeys(Front(s))
  {
    FrontLast(s);
  }

  lemma SameLength(s: seq<Record>, t: seq<Record>)
    requires multiset(s) == multiset(t)
    ensures |s| == |t|
  {
    assert |s| == |multiset(s)| == |multiset(t)| == |t|;
  }

  lemma OfKeyFront(s: seq<Record>, k: int)
    requires s != []
    ensures Last(s).key == k ==> OfKey(s, k) != []
    ensures OfKey(Front(s), k) == if Last(s).key == k then OfKey(s, k)[..|OfKey(s, k)| - 1] else OfKey(s, k)
  {}

  // ----- applying a callback

  datatype Verdict = Match | Continue | Break

  /** A callback sees a record and its offset, may change the record, and returns a verdict. */
  type Callback = (Record, int) -> (Verdict, Record)

  function Call(f: Callback, r: Record, off: int): (Verdict, Record) {
    f(r, off)
  }

  /** Delete mode: what stays of the records from offset `off` on. */
  function Kept(s: seq<Record>, off: int, f: Callback): seq<Record> {
    if s == [] then []
    else (if Call(f, s[0], off).0.Match? then [] else [Call(f, s[0], off).1]) + Kept(s[1..], off + 1, f)
  }

  /** Otherwise: the records as the callback leaves them, up to one it stops at. */
  function Changed(s: seq<Record>, off: int, f: Callback): seq<Record> {
    if s == [] then []
    else [Call(f, s[0], off).1] + if Call(f, s[0], off).0.Break? then s[1..] else Changed(s[1..], off + 1, f)
  }

  function Matched(s: seq<Record>, off: int, f: Callback, delete: bool): nat {
    if s == [] then 0
    else (if Call(f, s[0], off).0.Match? then 1 else 0)
         + if Call(f, s[0], off).0.Break? && !delete then 0 else Matched(s[1..], off + 1, f, delete)
  }

  /** In delete mode every record either matches or stays. */
  lemma {:induction false} KeptOrMatched(s: seq<Record>, off: int, f: Callback)
    ensures |Kept(s, off, f)| + Matched(s, off, f, true) == |s|
  {
    if s != [] {
      KeptOrMatched(s[1..], off + 1, f);
    }
  }

  lemma {:induction false} KeptAppend(s: seq<Record>, t: seq<Record>, off: int, f: Callback)
    ensures Kept(s + t, off, f) == Kept(s, off, f) + Kept(t, off + |s|, f)
    ensures Matched(s + t, off, f, true) == Matched(s, off, f, true) + Matched(t, off + |s|, f, true)
  {
    if s == [] {
      assert s + t == t;
    } else {
      assert (s + t)[1..] == s[1..] + t;
      KeptAppend(s[1..], t, off + 1, f);
    }
  }

  /** One record stays as the callback leaves it, or goes if it matches; with that and their order the records kept
      are determined. */
  lemma KeptOne(r: Record, off: int, f: Callback)
    ensures Kept([r], off, f) == if f(r, off).0 == Match then [] else [f(r, off).1]
  {
    assert [r][1..] == [];
  }

  /** The places of the records that match. */
  function Matches(s: seq<Record>, off: int, f: Callback): set<int> {
    set i | 0 <= i < |s| && f(s[i], off + i).0 == Match
  }

  /** The callback stops at place `stop`, or nowhere if that is the end. */
  ghost predicate StopsAt(s: seq<Record>, off: int, f: Callback, stop: nat) {
    && stop <= |s| && (forall i :: 0 <= i < stop ==> Call(f, s[i], off + i).0 != Break)
    && (stop < |s| ==> f(s[stop], off + stop).0 == Break)
  }

  lemma StopsLater(s: seq<Record>, off: int, f: Callback, stop: nat)
    requires StopsAt(s, off, f, stop) && stop > 0
    ensures StopsAt(s[1..], off + 1, f, stop - 1)
  {
    forall i | 0 <= i < stop - 1 ensures Call(f, s[1..][i], off + 1 + i).0 != Break {
      assert Call(f, s[i + 1], off + (i + 1)).0 != Break;
    }
  }

  /** All records up to the one the callback stops at are as it leaves them, the others as they were. */
  lemma {:induction false} ChangedAre(s: seq<Record>, off: int, f: Callback, stop: nat)
    requires StopsAt(s, off, f, stop)
    ensures |Changed(s, off, f)| == |s|
    ensures forall i :: 0 <= i < |s| ==> Changed(s, off, f)[i] == if i <= stop then f(s[i], off + i).1 else s[i]
  {
    if s != [] && stop > 0 {
      assert Call(f, s[0], off + 0).0 != Break;
      StopsLater(s, off, f, stop);
      var later := Changed(s[1..], off + 1, f);
      ChangedAre(s[1..], off + 1, f, stop - 1);
      assert Changed(s, off, f) == [f(s[0], off).1] + later;
      forall i | 0 < i < |s| ensures Changed(s, off, f)[i] == if i <= stop then f(s[i], off + i).1 else s[i] {
        assert s[1..][i - 1] == s[i] && off + 1 + (i - 1) == off + i;
      }
    } else if s != [] {
      assert Changed(s, off, f) == [f(s[0], off).1] + s[1..];
    }
  }

  /** The number of records affected: in delete mode all that match, */
  lemma {:induction false} MatchedCount(s: seq<Record>, off: int, f: Callback)
    ensures Matched(s, off, f, true) == |Matches(s, off, f)|
  {
    if s != [] {
      var n := |s| - 1;
      var front, last := s[..n], [s[n]];
      assert s == front + last && last[1..] == [];
      KeptAppend(front, last, off, f);
      MatchedCount(front, off, f);
      assert Matches(s, off, f) == Matches(front, off, f) + if f(s[n], off + n).0 == Match then {n} else {};
      assert n !in Matches(front, off, f);
    }
  }

  /** otherwise those before the one the callback stops at. */
  lemma {:induction false} MatchedBefore(s: seq<Record>, off: int, f: Callback, stop: nat)
    requires StopsAt(s, off, f, stop)
    ensures Matched(s, off, f, false) == Matched(s[..stop], off, f, true) == |Matches(s[..stop], off, f)|
  {
    MatchedCount(s[..stop], off, f);
    if stop > 0 {
      assert Call(f, s[0], off + 0).0 != Break;
      StopsLater(s, off, f, stop);
      MatchedBefore(s[1..], off + 1, f, stop - 1);
      assert s[..stop][1..] == s[1..][..stop - 1];
    }
  }

  /** A delete pass over `rest` has done `i` records. */
  ghost predicate Deleting(rest: seq<Record>, start: int, f: Callback, i: nat, kept: seq<Record>, affected: nat) {
    && i <= |rest| && affected + |kept| == i
    && kept == Kept(rest[..i], start, f) && affected == Matched(rest[..i], start, f, true)
  }

  lemma DeleteOne(rest: seq<Record>, start: int, f: Callback, i: nat, kept: seq<Record>, affected: nat)
    requires Deleting(rest, start, f, i, kept, affected) && i < |rest|
    ensures if Call(f, rest[i], start + i).0.Match? then Deleting(rest, start, f, i + 1, kept, affected + 1)
            else Deleting(rest, start, f, i + 1, kept + [Call(f, rest[i], start + i).1], affected)
  {
    assert rest[..i + 1] == rest[..i] + [rest[i]];
    assert [rest[i]][1..] == [];
    KeptAppend(rest[..i], [rest[i]], start, f);
  }

  /** A changing pass over `rest` has done `i` records. */
  ghost predicate Changing(rest: seq<Record>, start: int, f: Callback, i: nat, done: seq<Record>, affected: nat) {
    && i <= |rest| && |done| == i
    && done + Changed(rest[i..], start + i, f) == Changed(rest, start, f)
    && affected + Matched(rest[i..], start + i, f, false) == Matched(rest, start, f, false)
  }

  lemma ChangeOne(rest: seq<Record>, start: int, f: Callback, i: nat, done: seq<Record>, affected: nat)
    requires Changing(rest, start, f, i, done, affected) && i < |rest| && !Call(f, rest[i], start + i).0.Break?
    ensures Changing(rest, start, f, i + 1, done + [Call(f, rest[i], start + i).1],
                     affected + if Call(f, rest[i], start + i).0.Match? then 1 else 0)
  {
    assert rest[i..][1..] == rest[i + 1..];
    Regroup(done, [Call(f, rest[i], start + i).1], Changed(rest[i + 1..], start + i + 1, f));
  }

  lemma ChangeLast(rest: seq<Record>, start: int, f: Callback, i: nat, done: seq<Record>, affected: nat,
                   front: seq<Record>)
    requires Changing(rest, start, f, i, done, affected) && i < |rest| && Call(f, rest[i], start + i).0.Break?
    ensures front + (done + [Call(f, rest[i], start + i).1]) + rest[i + 1..] == front + Changed(rest, start, f)
    ensures affected == Matched(rest, start, f, false)
  {
    assert rest[i..][1..] == rest[i + 1..];
    Regroup(done, [Call(f, rest[i], start + i).1], rest[i + 1..]);
    Regroup(front, done + [Call(f, rest[i], start + i).1], rest[i + 1..]);
  }

  lemma ChangeEnd(rest: seq<Record>, start: int, f: Callback, done: seq<Record>, affected: nat)
    requires Changing(rest, start, f, |rest|, done, affected)
    ensures done == Changed(rest, start, f) && affected == Matched(rest, start, f, false)
  {
    assert rest[|rest|..] == [];
  }
}

/** The read marks of one board (lib/boardrc.c): an array of at most 60 item numbers, newest first,
    that stands for the whole set of items ever marked. */
module ReadMarks {
  import opened MachineInts

  const BRC_MAXNUM := 60

  /** Where the search loops stop: the first entry that is not above `item`. */
  function Place(items: seq<u32>, item: u32): (p: nat)
    ensures p <= |items|
    ensures forall i :: 0 <= i < p ==> items[i] > item
    ensures p < |items| ==> items[p] <= item
  {
    if items == [] || items[0] <= item then 0 else 1 + Place(items[1..], item)
  }

  predicate Unread(items: seq<u32>, item: u32) {
    items == [] || (var p := Place(items, item); p < |items| && items[p] != item)
  }

  function Mark(items: seq<u32>, item: u32): (after: seq<u32>)
    ensures after != [] && |after| <= Max(|items|, BRC_MAXNUM)
  {
    var p := Place(items, item);
    if p < |items| && items[p] == item then items
    else
      var longer := items[..p] + [item] + items[p..];
      if |longer| > BRC_MAXNUM then longer[..BRC_MAXNUM] else longer
  }

  function MarkAll(items: seq<u32>, marks: seq<u32>): seq<u32>
    decreases |marks|
  {
    if marks == [] then items else MarkAll(Mark(items, marks[0]), marks[1..])
  }

  function ItemsOf(items: seq<u32>): set<u32> {
    set x | x in items
  }

  ghost predicate Descending(items: seq<u32>) {
    |items| <= BRC_MAXNUM && forall i, j :: 0 <= i < j < |items| ==> items[i] > items[j]
  }

  function Last(items: seq<u32>): u32
    requires items != []
  {
    items[|items| - 1]
  }

  /** `items` are the (up to) 60 largest members of `s`, in descending order. */
  ghost predicate IsTop(items: seq<u32>, s: set<u32>) {
    && Descending(items)
    && (forall x :: x in items ==> x in s)
    && (forall x :: x in s && x !in items ==> |items| == BRC_MAXNUM && x < Last(items))
  }

  /** There is only one such array. */
  lemma TopUnique(a: seq<u32>, b: seq<u32>, s: set<u32>)
    requires IsTop(a, s) && IsTop(b, s)
    ensures a == b
  {
    NotLonger(a, b, s);
    NotLonger(b, a, s);
    TopPrefix(a, b, s, |a|);
  }

  lemma NotLonger(a: seq<u32>, b: seq<u32>, s: set<u32>)
    requires IsTop(a, s) && IsTop(b, s)
    ensures |b| <= |a|
  {
    var n := if |a| <= |b| then |a| else |b|;
    TopPrefix(a, b, s, n);
    forall i | 0 <= i < n ensures a[i] == b[i] {
      assert a[..n][i] == b[..n][i];
    }
    if n < |b| {
      NextEntry(b, s, n);
    }
  }

  lemma NextEntry(b: seq<u32>, s: set<u32>, n: nat)
    requires IsTop(b, s) && n < |b|
    ensures b[n] in s && forall i :: 0 <= i < n ==> b[i] > b[n]
  {
    assert b[n] in b;
  }

  lemma {:induction false} TopPrefix(a: seq<u32>, b: seq<u32>, s: set<u32>, n: nat)
    requires IsTop(a, s) && IsTop(b, s) && n <= |a| && n <= |b|
    ensures a[..n] == b[..n]
  {
    if n > 0 {
      TopPrefix(a, b, s, n - 1);
      TopNext(a, b, s, n - 1);
      TopNext(b, a, s, n - 1);
    }
  }

  /** Of two arrays that agree so far, neither has the larger next entry. */
  lemma TopNext(a: seq<u32>, b: seq<u32>, s: set<u32>, k: nat)
    requires IsTop(a, s) && IsTop(b, s) && k < |a| && k < |b| && a[..k] == b[..k]
    ensures a[k] <= b[k]
  {
    assert a[k] in s;
    if a[k] in b {
      var j :| 0 <= j < |b| && b[j] == a[k];
      assert forall i :: 0 <= i < k ==> b[i] == b[..k][i] == a[i];
    }
  }

  /** The array with an item inserted, before the oldest entry is dropped. */
  function Longer(items: seq<u32>, item: u32): seq<u32> {
    var p := Place(items, item);
    items[..p] + [item] + items[p..]
  }

  lemma LongerEntries(items: seq<u32>, item: u32)
    requires Descending(items) && item !in items
    ensures var l := Longer(items, item);
            && (forall i, j :: 0 <= i < j < |l| ==> l[i] > l[j])
            && (forall x :: x in l <==> x in items || x == item)
  {
    var p := Place(items, item);
    var l := Longer(items, item);
    assert l[p] == item;
    assert forall i :: 0 <= i < p ==> l[i] == items[i];
    assert forall i :: p < i < |l| ==> l[i] == items[i - 1];
    forall x | x in items ensures x in l {
      var i :| 0 <= i < |items| && items[i] == x;
      assert l[if i < p then i else i + 1] == x;
    }
  }

  lemma PlaceFinds(items: seq<u32>, item: u32)
    requires Descending(items)
    ensures item in items <==> Place(items, item) < |items| && items[Place(items, item)] == item
  {
    if item in items {
      var i :| 0 <= i < |items| && items[i] == item;
      assert Place(items, item) <= i;
    }
  }

  /** The three ways a mark can go. */
  lemma MarkCases(items: seq<u32>, item: u32)
    requires Descending(items)
    ensures Descending(Mark(items, item)) && Mark(items, item) != []
    ensures item in items ==> Mark(items, item) == items
    ensures item !in items && |items| < BRC_MAXNUM ==> Mark(items, item) == Longer(items, item)
    ensures item !in items && |items| == BRC_MAXNUM ==> Mark(items, item) == Longer(items, item)[..BRC_MAXNUM]
  {
    PlaceFinds(items, item);
    if item !in items {
      LongerEntries(items, item);
    }
  }

  /** Marking an item inserts it into the set and keeps the 60 largest. */
  lemma MarkIsTop(items: seq<u32>, s: set<u32>, item: u32)
    requires IsTop(items, s)
    ensures IsTop(Mark(items, item), s + {item})
  {
    MarkCases(items, item);
    if item !in items {
      LongerEntries(items, item);
      if |items| == BRC_MAXNUM {
        MarkLast(items, item);
        FullMark(items, item);
      }
    }
  }

  /** A full array loses exactly the smallest of its entries and the new item. */
  lemma FullMark(items: seq<u32>, item: u32)
    requires Descending(items) && |items| == BRC_MAXNUM && item !in items
    ensures forall x :: (x in items || x == item) ==> x in Mark(items, item) || x < Last(Mark(items, item))
  {
    LongerEntries(items, item);
    MarkCases(items, item);
    var l, after := Longer(items, item), Mark(items, item);
    forall x | x in items || x == item ensures x in after || x < Last(after) {
      var i :| 0 <= i < |l| && l[i] == x;
      if i < BRC_MAXNUM {
        assert after[i] == x;
      } else {
        assert l[BRC_MAXNUM - 1] > l[i];
      }
    }
  }

  /** Over every run: the array holds the 60 largest of all items marked so far. */
  lemma {:induction false} MarkAllIsTop(items: seq<u32>, s: set<u32>, marks: seq<u32>)
    requires IsTop(items, s)
    ensures IsTop(MarkAll(items, marks), s + ItemsOf(marks))
    decreases |marks|
  {
    if marks == [] {
      assert s + ItemsOf(marks) == s;
    } else {
      MarkIsTop(items, s, marks[0]);
      MarkAllIsTop(Mark(items, marks[0]), s + {marks[0]}, marks[1..]);
      ItemsOfFirst(s, marks);
    }
  }

  lemma ItemsOfFirst(s: set<u32>, marks: seq<u32>)
    requires marks != []
    ensures s + {marks[0]} + ItemsOf(marks[1..]) == s + ItemsOf(marks)
  {
    assert marks == [marks[0]] + marks[1..];
  }

  lemma FreshIsTop()
    ensures IsTop([1], {1})
  {}

  /** What the array answers: unread are the items above its last entry that it does not list. */
  lemma UnreadMeans(items: seq<u32>, x: u32)
    requires Descending(items) && items != []
    ensures Unread(items, x) <==> x !in items && x > Last(items)
  {
    var p := Place(items, x);
    if x in items {
      var i :| 0 <= i < |items| && items[i] == x;
      assert p <= i;
    }
  }

  /** The exact case in which marking one item makes another one unread again. */
  lemma MarkForgets(items: seq<u32>, item: u32, x: u32)
    requires Descending(items) && items != []
    ensures !Unread(items, x) && Unread(Mark(items, item), x)
            <==> |items| < BRC_MAXNUM && item < x < Last(items)
  {
    MarkCases(items, item);
    UnreadMeans(items, x);
    UnreadMeans(Mark(items, item), x);
    if item !in items {
      MarkLast(items, item);
      LongerEntries(items, item);
    }
  }

  /** Where the last entry moves. */
  lemma MarkLast(items: seq<u32>, item: u32)
    requires Descending(items) && items != [] && item !in items
    ensures |items| < BRC_MAXNUM ==> Last(Mark(items, item)) == Min(item, Last(items))
    ensures |items| == BRC_MAXNUM && item < Last(items) ==> Mark(items, item) == items
    ensures |items| == BRC_MAXNUM && item > Last(items) ==>
              && Last(items) < Last(Mark(items, item)) && item >= Last(Mark(items, item))
              && forall y :: y in items && y != Last(items) ==> y in Mark(items, item)
  {
    MarkCases(items, item);
    LongerEntries(items, item);
    var l, after := Longer(items, item), Mark(items, item);
    if item < Last(items) {
      assert Place(items, item) == |items|;
      assert l == items + [item];
    } else {
      assert Place(items, item) < |items|;
      assert Last(l) == Last(items);
      forall y | y in items && y != Last(items) && |items| == BRC_MAXNUM ensures y in after {
        var i :| 0 <= i < |l| && l[i] == y;
        assert after[i] == y;
      }
    }
  }

  /** With item 1 in the set, marking one item makes nothing unread. */
  lemma OneMarkForgetsNothing(items: seq<u32>, s: set<u32>, item: u32, x: u32)
    requires IsTop(items, s) && 1 in s
    ensures items != [] && (!Unread(items, x) ==> !Unread(Mark(items, item), x))
  {
    assert 1 in items || |items| == BRC_MAXNUM;
    MarkForgets(items, item, x);
    if |items| < BRC_MAXNUM {
      assert Last(items) <= 1;
    }
  }

  /** From the record a new board starts with, an item once read never becomes unread, whatever is marked
      afterwards. */
  lemma {:induction false} ReadStaysRead(items: seq<u32>, s: set<u32>, marks: seq<u32>, x: u32)
    requires IsTop(items, s) && 1 in s && !Unread(items, x)
    ensures !Unread(MarkAll(items, marks), x)
    decreases |marks|
  {
    if marks != [] {
      OneMarkForgetsNothing(items, s, marks[0], x);
      MarkIsTop(items, s, marks[0]);
      ReadStaysRead(Mark(items, marks[0]), s + {marks[0]}, marks[1..], x);
    }
  }

  /** A marked item is read. */
  lemma MarkedIsRead(items: seq<u32>, item: u32)
    requires Descending(items)
    ensures !Unread(Mark(items, item), item)
  {
    MarkCases(items, item);
    UnreadMeans(Mark(items, item), item);
    if item !in items {
      LongerEntries(items, item);
      var l := Longer(items, item);
      var i :| 0 <= i < |l| && l[i] == item;
      assert i < |Mark(items, item)| ==> Mark(items, item)[i] == item;
    }
  }

  // ----- brc_clear

  /** The items `brc_clear(t)` marks, oldest first; below 59 the loop bound wraps and it does nothing. */
  function Cleared(t: u32): seq<u32> {
    if t < BRC_MAXNUM - 1 then []
    else seq(BRC_MAXNUM, i requires 0 <= i < BRC_MAXNUM => (t - BRC_MAXNUM + 1 + i) as u32)
  }

  /** Everything up to `t` becomes read. */
  lemma ClearReadsAll(items: seq<u32>, s: set<u32>, t: u32, x: u32)
    requires IsTop(items, s) && BRC_MAXNUM - 1 <= t && x <= t
    ensures !Unread(MarkAll(items, Cleared(t)), x)
  {
    var after := MarkAll(items, Cleared(t));
    var s' := s + ItemsOf(Cleared(t));
    MarkAllIsTop(items, s, Cleared(t));
    var lo := t - BRC_MAXNUM + 1;
    assert forall y: u32 :: lo <= y <= t ==> y in Cleared(t) by {
      forall y: u32 | lo <= y <= t ensures y in Cleared(t) { assert Cleared(t)[y - lo] == y; }
    }
    TopReadsRange(after, s', lo, t, x);
  }

  ghost predicate AllRead(items: seq<u32>, t: u32) {
    forall x: u32 {:trigger Unread(items, x)} :: x <= t ==> !Unread(items, x)
  }

  lemma AllReadIff(items: seq<u32>, t: u32)
    requires Descending(items) && items != []
    ensures AllRead(items, t) <==> forall x: u32 :: Last(items) < x <= t ==> x in items
  {
    if AllRead(items, t) {
      forall x: u32 | Last(items) < x <= t ensures x in items {
        UnreadMeans(items, x);
        assert !Unread(items, x);
      }
    }
    if forall x: u32 :: Last(items) < x <= t ==> x in items {
      forall x: u32 | x <= t ensures !Unread(items, x) {
        UnreadMeans(items, x);
      }
    }
  }

  /** For every record that goes back to that of a new board: clearing makes everything up to `t` read exactly
      if its loop bound does not wrap, or nothing above the last entry is left to mark. */
  lemma ClearReadsIff(items: seq<u32>, s: set<u32>, t: u32)
    requires IsTop(items, s) && 1 in s
    ensures items != []
    ensures AllRead(MarkAll(items, Cleared(t)), t)
            <==> t >= BRC_MAXNUM - 1 || forall x: u32 :: Last(items) < x <= t ==> x in items
  {
    assert 1 in items || |items| == BRC_MAXNUM;
    if t >= BRC_MAXNUM - 1 {
      forall x: u32 | x <= t ensures !Unread(MarkAll(items, Cleared(t)), x) {
        ClearReadsAll(items, s, t, x);
      }
    } else {
      assert MarkAll(items, Cleared(t)) == items;
      AllReadIff(items, t);
    }
  }

  lemma TopReadsRange(after: seq<u32>, s': set<u32>, lo: u32, t: u32, x: u32)
    requires IsTop(after, s') && lo + BRC_MAXNUM - 1 == t && x <= t
    requires forall y: u32 :: lo <= y <= t ==> y in s'
    ensures !Unread(after, x)
  {
    assert t in s';
    UnreadMeans(after, x);
    if forall y: u32 :: lo <= y <= t ==> y in after {
      DescendingRoom(after, t, BRC_MAXNUM - 1);
    } else {
      var y: u32 :| lo <= y <= t && y !in after;
      assert y in s' && y < Last(after);
    }
  }

  /** An array that lists t, t-1, ..., t-k lists t-k at position k or later. */
  lemma {:induction false} DescendingRoom(items: seq<u32>, t: u32, k: nat)
    requires Descending(items) && k <= t
    requires forall y: u32 :: t - k <= y <= t ==> y in items
    ensures exists i :: k <= i < |items| && items[i] == t - k
  {
    var y: u32 := t - k;
    assert y in items;
    var i :| 0 <= i < |items| && items[i] == y;
    if k > 0 {
      DescendingRoom(items, t, k - 1);
      var j :| k - 1 <= j < |items| && items[j] == t - (k - 1);
      assert i > j;
    }
  }

  /** Nothing above `t` changes. */
  lemma ClearKeepsAbove(items: seq<u32>, s: set<u32>, t: u32, x: u32)
    requires IsTop(items, s) && 1 in s && t < x
    ensures Unread(MarkAll(items, Cleared(t)), x) <==> Unread(items, x)
  {
    assert 1 in items || |items| == BRC_MAXNUM;
    if |items| < BRC_MAXNUM {
      assert Last(items) <= 1;
    }
    MarksBelow(items, Cleared(t), x);
  }

  lemma {:induction false} MarksBelow(items: seq<u32>, marks: seq<u32>, x: u32)
    requires Descending(items) && items != [] && (|items| == BRC_MAXNUM || Last(items) <= x)
    requires forall i :: 0 <= i < |marks| ==> marks[i] < x
    ensures Unread(MarkAll(items, marks), x) <==> Unread(items, x)
    decreases |marks|
  {
    if marks != [] {
      OneMarkBelow(items, marks[0], x);
      MarksBelow(Mark(items, marks[0]), marks[1..], x);
    }
  }

  lemma OneMarkBelow(items: seq<u32>, item: u32, x: u32)
    requires Descending(items) && items != [] && (|items| == BRC_MAXNUM || Last(items) <= x) && item < x
    ensures var after := Mark(items, item);
            && Descending(after) && after != [] && (|after| == BRC_MAXNUM || Last(after) <= x)
            && (Unread(after, x) <==> Unread(items, x))
  {
    MarkCases(items, item);
    UnreadMeans(items, x);
    UnreadMeans(Mark(items, item), x);
    if item !in items {
      MarkLast(items, item);
      LongerEntries(items, item);
    }
  }
}

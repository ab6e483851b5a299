/** The write-back cache of lib/boardrc.c as a value: one board's record in hand, the packed records
    of all boards behind it, and the user's file. Across visits it answers as one table of marks per
    board would. */
module MarkCache {
  import opened MachineInts
  import opened ReadMarks
  import opened MarkRecords

  datatype Store = Store(cur: Rec, dirty: bool, recs: seq<Rec>, bufDirty: bool, loaded: bool, disk: seq<Rec>)

  /** What `brc_reset` leaves, with the user's file on disk. */
  function Reset(disk: seq<Rec>): Store {
    Store(Rec([], []), false, [], false, false, disk)
  }

  // ----- merging

  /** The cut `brc_merge` applies to a buffer that is too full. */
  function Limit(size: nat): nat {
    if size > BRC_BUFSIZE - BRC_ITEMSIZE then BRC_BUFSIZE - BRC_ITEMSIZE * 2 + 1 else size
  }

  /** The records that start below `limit`. */
  function Kept(recs: seq<Rec>, off: nat, limit: nat): seq<Rec> {
    if recs == [] || off >= limit then [] else [recs[0]] + Kept(recs[1..], off + Size(recs[0]), limit)
  }

  function Others(recs: seq<Rec>, name: Name): seq<Rec> {
    if recs == [] then []
    else (if recs[0].name == name then [] else [recs[0]]) + Others(recs[1..], name)
  }

  function Merged(cur: Rec, recs: seq<Rec>): seq<Rec> {
    (if cur.items == [] then [] else [cur]) + Others(Kept(recs, 0, Limit(TotalSize(recs))), cur.name)
  }

  function Find(recs: seq<Rec>, name: Name): seq<u32> {
    if recs == [] then [] else if recs[0].name == name then recs[0].items else Find(recs[1..], name)
  }

  // ----- the operations

  function WriteBack(s: Store): Store {
    s.(recs := Merged(s.cur, s.recs), dirty := false, bufDirty := true)
  }

  /** `brc_init` */
  function Visit(s: Store, board: Name): Store {
    if s.cur.name == board then s
    else
      var s1 := if s.dirty then WriteBack(s) else s;
      var s2 := if s1.loaded then s1 else s1.(recs := s1.disk, loaded := true, bufDirty := false);
      var items := Find(s2.recs, board);
      if items != [] then s2.(cur := Rec(board, items)) else s2.(cur := Rec(board, [1]), dirty := true)
  }

  /** `brc_mark_as_read` */
  function MarkItem(s: Store, item: u32): Store {
    var after := Mark(s.cur.items, item);
    s.(cur := s.cur.(items := after), dirty := s.dirty || after != s.cur.items)
  }

  /** `brc_sync` */
  function Sync(s: Store): Store {
    if !s.dirty && !s.bufDirty then s
    else
      var recs := Merged(s.cur, s.disk);
      s.(recs := recs, dirty := false, bufDirty := true, disk := recs)
  }

  // ----- what the cache stands for

  /** The marks of board `n`, wherever they are. */
  function MarksOf(s: Store, n: Name): seq<u32> {
    if s.cur.items != [] && n == s.cur.name then s.cur.items
    else Find(if s.loaded then s.recs else s.disk, n)
  }

  /** The marks of board `n` in the file. */
  function Saved(s: Store, n: Name): seq<u32> {
    Find(s.disk, n)
  }

  ghost predicate Distinct(recs: seq<Rec>) {
    forall i, j :: 0 <= i < j < |recs| ==> recs[i].name != recs[j].name
  }

  ghost predicate GoodRecs(recs: seq<Rec>) {
    Distinct(recs) && (forall r :: r in recs ==> GoodRec(r)) && TotalSize(recs) <= BRC_BUFSIZE
  }

  ghost predicate Consistent(s: Store) {
    && GoodRecs(s.recs) && GoodRecs(s.disk)
    && (if s.loaded then GoodRec(s.cur) else s == Reset(s.disk))
    && (s.loaded && !s.dirty ==> s.cur.items == Find(s.recs, s.cur.name))
    && (s.loaded && !s.bufDirty ==> s.recs == s.disk)
  }

  /** Merging now would cut nothing. */
  predicate Roomy(s: Store) {
    TotalSize(s.recs) <= BRC_BUFSIZE - BRC_ITEMSIZE
  }

  /** Nor would syncing. */
  predicate CutsNothing(s: Store) {
    s.dirty || s.bufDirty ==> TotalSize(s.disk) <= BRC_BUFSIZE - BRC_ITEMSIZE
  }

  // ----- facts about merging

  lemma {:induction false} KeptAll(recs: seq<Rec>, off: nat, limit: nat)
    requires off + TotalSize(recs) <= limit
    ensures Kept(recs, off, limit) == recs
  {
    if recs != [] {
      KeptAll(recs[1..], off + Size(recs[0]), limit);
    }
  }

  lemma {:induction false} KeptPrefix(recs: seq<Rec>, off: nat, limit: nat)
    ensures Kept(recs, off, limit) <= recs
    ensures (forall r :: r in recs ==> GoodRec(r)) && off < limit ==>
              off + TotalSize(Kept(recs, off, limit)) < limit + BRC_ITEMSIZE
  {
    if recs != [] && off < limit {
      KeptPrefix(recs[1..], off + Size(recs[0]), limit);
      assert recs[0] in recs && forall r :: r in recs[1..] ==> r in recs;
    }
  }

  lemma {:induction false} OthersFind(recs: seq<Rec>, name: Name, n: Name)
    ensures Find(Others(recs, name), n) == if n == name then [] else Find(recs, n)
  {
    if recs != [] {
      OthersFind(recs[1..], name, n);
      OthersFirst(recs, name);
    }
  }

  lemma OthersFirst(recs: seq<Rec>, name: Name)
    requires recs != []
    ensures if recs[0].name == name then Others(recs, name) == Others(recs[1..], name)
            else Others(recs, name) != [] && Others(recs, name)[0] == recs[0]
                 && Others(recs, name)[1..] == Others(recs[1..], name)
  {}

  lemma {:induction false} OthersMembers(recs: seq<Rec>, name: Name)
    ensures forall r :: r in Others(recs, name) ==> r in recs && r.name != name
    ensures TotalSize(Others(recs, name)) <= TotalSize(recs)
  {
    if recs != [] {
      OthersMembers(recs[1..], name);
      OthersFirst(recs, name);
      assert recs == [recs[0]] + recs[1..];
      if recs[0].name != name {
        assert Others(recs, name) == [recs[0]] + Others(recs[1..], name);
      }
    }
  }

  lemma {:induction false} OthersDistinct(recs: seq<Rec>, name: Name)
    requires Distinct(recs)
    ensures Distinct(Others(recs, name))
  {
    if recs != [] {
      OthersDistinct(recs[1..], name);
      OthersMembers(recs[1..], name);
      OthersFirst(recs, name);
      if recs[0].name != name {
        ConsDistinct(recs[0], Others(recs[1..], name));
        assert Others(recs, name) == [recs[0]] + Others(recs[1..], name);
      }
    }
  }

  lemma ConsDistinct(r: Rec, recs: seq<Rec>)
    requires Distinct(recs) && forall x :: x in recs ==> x.name != r.name
    ensures Distinct([r] + recs)
  {
    var all := [r] + recs;
    forall i, j | 0 <= i < j < |all| ensures all[i].name != all[j].name {
      assert all[j] == recs[j - 1];
      assert i > 0 ==> all[i] == recs[i - 1];
    }
  }

  /** The merged buffer is well formed and always fits, on both paths. */
  lemma MergedGood(cur: Rec, recs: seq<Rec>)
    requires GoodRecs(recs) && (cur.items == [] || GoodRec(cur))
    ensures GoodRecs(Merged(cur, recs))
  {
    var kept := Kept(recs, 0, Limit(TotalSize(recs)));
    KeptGood(recs);
    OthersMembers(kept, cur.name);
    OthersDistinct(kept, cur.name);
    PutInFront(cur, Others(kept, cur.name));
  }

  /** What survives the cut leaves room for one more record. */
  lemma KeptGood(recs: seq<Rec>)
    requires GoodRecs(recs)
    ensures var kept := Kept(recs, 0, Limit(TotalSize(recs)));
            GoodRecs(kept) && TotalSize(kept) <= BRC_BUFSIZE - BRC_ITEMSIZE
  {
    var size := TotalSize(recs);
    KeptPrefix(recs, 0, Limit(size));
    if size <= BRC_BUFSIZE - BRC_ITEMSIZE {
      KeptAll(recs, 0, size);
    }
  }

  lemma PutInFront(cur: Rec, recs: seq<Rec>)
    requires GoodRecs(recs) && TotalSize(recs) <= BRC_BUFSIZE - BRC_ITEMSIZE
    requires cur.items == [] || (GoodRec(cur) && forall r :: r in recs ==> r.name != cur.name)
    ensures GoodRecs((if cur.items == [] then [] else [cur]) + recs)
  {
    if cur.items == [] {
      assert [] + recs == recs;
    } else {
      ConsDistinct(cur, recs);
      assert ([cur] + recs)[1..] == recs;
    }
  }

  /** What a search finds after merging. */
  lemma MergedFind(cur: Rec, recs: seq<Rec>, n: Name)
    requires cur.items != []
    ensures Find(Merged(cur, recs), n) ==
              if n == cur.name then cur.items else Find(Kept(recs, 0, Limit(TotalSize(recs))), n)
    ensures TotalSize(recs) <= BRC_BUFSIZE - BRC_ITEMSIZE && n != cur.name ==>
              Find(Merged(cur, recs), n) == Find(recs, n)
  {
    var kept := Kept(recs, 0, Limit(TotalSize(recs)));
    assert Merged(cur, recs)[1..] == Others(kept, cur.name);
    OthersFind(kept, cur.name, n);
    if TotalSize(recs) <= BRC_BUFSIZE - BRC_ITEMSIZE {
      KeptAll(recs, 0, TotalSize(recs));
    }
  }

  // ----- what a cut leaves

  lemma {:induction false} KeptStarts(recs: seq<Rec>, off: nat, limit: nat)
    ensures var k := |Kept(recs, off, limit)|;
            && k <= |recs| && Kept(recs, off, limit) == recs[..k]
            && forall i :: 0 <= i < |recs| ==> (i < k <==> off + TotalSize(recs[..i]) < limit)
  {
    if recs != [] {
      var rest, next := recs[1..], off + Size(recs[0]);
      KeptStarts(rest, next, limit);
      forall i | 0 < i < |recs| ensures TotalSize(recs[..i]) == Size(recs[0]) + TotalSize(rest[..i - 1]) {
        assert recs[..i][1..] == rest[..i - 1];
      }
      if off < limit {
        assert Kept(recs, off, limit)[1..] == Kept(rest, next, limit);
      }
    }
  }

  lemma {:induction false} StartBeforeEnd(recs: seq<Rec>, i: nat)
    requires i < |recs|
    ensures TotalSize(recs[..i]) < TotalSize(recs)
  {
    if i > 0 {
      StartBeforeEnd(recs[1..], i - 1);
      assert recs[..i][1..] == recs[1..][..i - 1];
    }
  }

  lemma {:induction false} OthersHave(recs: seq<Rec>, name: Name, r: Rec)
    ensures r in Others(recs, name) <==> r in recs && r.name != name
  {
    if recs != [] {
      OthersHave(recs[1..], name, r);
      assert recs == [recs[0]] + recs[1..];
    }
  }

  /** Merging keeps records in their order. */
  lemma {:induction false} OthersAppend(a: seq<Rec>, b: seq<Rec>, name: Name)
    ensures Others(a + b, name) == Others(a, name) + Others(b, name)
  {
    if a == [] {
      assert a + b == b;
    } else {
      assert (a + b)[0] == a[0] && (a + b)[1..] == a[1..] + b;
      OthersAppend(a[1..], b, name);
    }
  }

  /** Of a buffer of more than 49739 bytes exactly the records that start below byte 49479 survive a merge, of a
      smaller one all, always except for the one of the board in hand. */
  lemma MergeSurvivors(cur: Rec, recs: seq<Rec>, i: nat)
    requires Distinct(recs) && i < |recs| && cur.items != [] && recs[i] != cur
    ensures recs[i] in Merged(cur, recs)
            <==> recs[i].name != cur.name && (TotalSize(recs) <= 49739 || TotalSize(recs[..i]) < 49479)
    ensures Merged(cur, recs)[0] == cur
  {
    var kept := Kept(recs, 0, Limit(TotalSize(recs)));
    KeptStarts(recs, 0, Limit(TotalSize(recs)));
    StartBeforeEnd(recs, i);
    OthersHave(kept, cur.name, recs[i]);
    assert Merged(cur, recs) == [cur] + Others(kept, cur.name);
    if recs[i] in kept {
      var j :| 0 <= j < |kept| && kept[j] == recs[i];
      assert recs[j].name == recs[i].name && j == i;
    }
    if i < |kept| {
      assert kept[i] == recs[i];
    }
  }

  lemma {:induction false} FoundIsGood(recs: seq<Rec>, n: Name)
    requires forall r :: r in recs ==> GoodRec(r)
    ensures var items := Find(recs, n);
            |items| <= BRC_MAXNUM && (items != [] ==> GoodRec(Rec(n, items)))
  {
    assert recs != [] ==> recs[0] in recs;
    if recs != [] && recs[0].name != n {
      FoundIsGood(recs[1..], n);
    }
  }

  // ----- visiting, marking and syncing, seen through MarksOf

  lemma VisitConsistent(s: Store, board: Name)
    requires Consistent(s) && GoodName(board)
    ensures Consistent(Visit(s, board)) && Visit(s, board).loaded && Visit(s, board).cur.name == board
  {
    if s.cur.name != board {
      if s.dirty {
        MergedGood(s.cur, s.recs);
      }
      FoundIsGood(Visit(s, board).recs, board);
    }
  }

  lemma SyncConsistent(s: Store)
    requires Consistent(s)
    ensures Consistent(Sync(s))
  {
    if s.dirty || s.bufDirty {
      MergedGood(s.cur, s.disk);
      MergedFind(s.cur, s.disk, s.cur.name);
    }
  }

  /** Visiting a board changes no board's marks, except that a board without any starts with item 1. */
  lemma VisitKeeps(s: Store, board: Name)
    requires Consistent(s) && GoodName(board) && (s.dirty && s.cur.name != board ==> Roomy(s))
    ensures Consistent(Visit(s, board)) && Visit(s, board).loaded && Visit(s, board).cur.name == board
    ensures forall n: Name :: MarksOf(Visit(s, board), n) ==
              if n == board && MarksOf(s, board) == [] then [1] else MarksOf(s, n)
    ensures Visit(s, board).disk == s.disk
  {
    VisitConsistent(s, board);
    if s.cur.name != board {
      if s.dirty {
        forall n: Name { MergedFind(s.cur, s.recs, n); }
      }
      var recs := Visit(s, board).recs;
      FoundIsGood(recs, board);
      forall n: Name ensures MarksOf(s, n) == Find(recs, n) {
      }
    }
  }

  /** Marking an item marks it on the board in hand and nowhere else. */
  lemma MarkKeeps(s: Store, item: u32)
    requires Consistent(s) && s.loaded
    ensures Consistent(MarkItem(s, item)) && MarkItem(s, item).loaded
    ensures MarkItem(s, item).cur.name == s.cur.name && MarkItem(s, item).disk == s.disk
    ensures forall n: Name :: MarksOf(MarkItem(s, item), n) ==
              if n == s.cur.name then Mark(MarksOf(s, n), item) else MarksOf(s, n)
  {}

  /** Syncing saves the board in hand and takes every other board's marks from the file. */
  lemma SyncTakes(s: Store, n: Name)
    requires Consistent(s) && CutsNothing(s)
    ensures Consistent(Sync(s)) && Sync(s).loaded == s.loaded && Sync(s).cur == s.cur
    ensures MarksOf(Sync(s), n) == Saved(Sync(s), n) == if n == s.cur.name then MarksOf(s, n) else Saved(s, n)
  {
    SyncConsistent(s);
    if s.dirty || s.bufDirty {
      MergedFind(s.cur, s.disk, n);
    }
  }

  function MarkEach(s: Store, items: seq<u32>): Store
    decreases |items|
  {
    if items == [] then s else MarkEach(MarkItem(s, items[0]), items[1..])
  }

  lemma {:induction false} MarkEachKeeps(s: Store, items: seq<u32>)
    requires Consistent(s) && s.loaded
    ensures var t := MarkEach(s, items);
            && Consistent(t) && t.loaded && t.cur.name == s.cur.name && t.disk == s.disk
            && forall n: Name :: MarksOf(t, n) ==
                 if n == s.cur.name then MarkAll(MarksOf(s, n), items) else MarksOf(s, n)
    decreases |items|
  {
    if items != [] {
      MarkKeeps(s, items[0]);
      MarkEachKeeps(MarkItem(s, items[0]), items[1..]);
    }
  }
}

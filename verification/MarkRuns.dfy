/** Whole runs over the cache of lib/boardrc.c: visits, marks, clears and syncs in any order. Seen from one
    board there are only two values, its marks and its saved marks. */
module MarkRuns {
  import opened MachineInts
  import opened ReadMarks
  import opened MarkRecords
  import opened MarkCache

  datatype Op = OpVisit(board: Name) | OpMark(item: u32) | OpClear(t: u32) | OpSync

  function Do(s: Store, op: Op): Store {
    match op
    case OpVisit(board) => Visit(s, board)
    case OpMark(item) => MarkItem(s, item)
    case OpClear(t) => MarkEach(s, Cleared(t))
    case OpSync => Sync(s)
  }

  function Run(s: Store, ops: seq<Op>): Store
    decreases |ops|
  {
    if ops == [] then s else Run(Do(s, ops[0]), ops[1..])
  }

  /** Boards have proper names, a board is visited before anything is marked, and no merge cuts. */
  predicate Fit(s: Store, op: Op) {
    match op
    case OpVisit(board) => GoodName(board) && (s.dirty && s.cur.name != board ==> Roomy(s))
    case OpMark(_) => s.loaded
    case OpClear(_) => s.loaded
    case OpSync => CutsNothing(s)
  }

  ghost predicate Proper(s: Store, ops: seq<Op>)
    decreases |ops|
  {
    ops == [] || (Fit(s, ops[0]) && Proper(Do(s, ops[0]), ops[1..]))
  }

  // ----- one board

  datatype Board = Board(marks: seq<u32>, saved: seq<u32>)

  /** The board in hand after `op`. */
  function Hand(here: Name, op: Op): Name {
    if op.OpVisit? then op.board else here
  }

  /** What `op` does to board `n` while `here` is in hand: it is marked only when it is in hand, a first visit
      marks item 1, and a sync saves the board in hand and puts every other back to what was saved. */
  function Expected(here: Name, b: Board, op: Op, n: Name): Board {
    match op
    case OpVisit(board) => if board == n && b.marks == [] then b.(marks := [1]) else b
    case OpMark(item) => if here == n then b.(marks := Mark(b.marks, item)) else b
    case OpClear(t) => if here == n then b.(marks := MarkAll(b.marks, Cleared(t))) else b
    case OpSync => if here == n then b.(saved := b.marks) else b.(marks := b.saved)
  }

  function ExpectedRun(here: Name, b: Board, ops: seq<Op>, n: Name): Board
    decreases |ops|
  {
    if ops == [] then b else ExpectedRun(Hand(here, ops[0]), Expected(here, b, ops[0], n), ops[1..], n)
  }

  function BoardOf(s: Store, n: Name): Board {
    Board(MarksOf(s, n), Saved(s, n))
  }

  lemma StepAnswers(s: Store, op: Op, n: Name)
    requires Consistent(s) && Fit(s, op)
    ensures Consistent(Do(s, op)) && Do(s, op).cur.name == Hand(s.cur.name, op)
    ensures BoardOf(Do(s, op), n) == Expected(s.cur.name, BoardOf(s, n), op, n)
  {
    match op
    case OpVisit(board) => VisitKeeps(s, board);
    case OpMark(item) => MarkKeeps(s, item);
    case OpClear(t) => MarkEachKeeps(s, Cleared(t));
    case OpSync => SyncTakes(s, n);
  }

  /** The cache and the file answer as the two values of each board do, however visits, marks, clears and
      syncs alternate. */
  lemma {:induction false} RunAnswersAsTable(s: Store, ops: seq<Op>, n: Name)
    requires Consistent(s) && Proper(s, ops)
    ensures Consistent(Run(s, ops))
    ensures BoardOf(Run(s, ops), n) == ExpectedRun(s.cur.name, BoardOf(s, n), ops, n)
    decreases |ops|
  {
    if ops != [] {
      StepAnswers(s, ops[0], n);
      RunAnswersAsTable(Do(s, ops[0]), ops[1..], n);
    }
  }

  // ----- marking only ever moves upwards

  /** In the order of sequences, with a sequence below its continuations. */
  ghost predicate Below(a: seq<u32>, b: seq<u32>) {
    exists p: nat :: BelowAt(a, b, p)
  }

  predicate BelowAt(a: seq<u32>, b: seq<u32>, p: nat) {
    p <= |a| && p < |b| && a[..p] == b[..p] && (p < |a| ==> a[p] < b[p])
  }

  lemma BelowTransitive(a: seq<u32>, b: seq<u32>, c: seq<u32>)
    requires Below(a, b) && Below(b, c)
    ensures Below(a, c)
  {
    var p: nat :| BelowAt(a, b, p);
    var q: nat :| BelowAt(b, c, q);
    var r := if p < q then p else q;
    assert a[..p][..r] == b[..p][..r] && b[..q][..r] == c[..q][..r];
    assert a[..r] == a[..p][..r] && c[..r] == c[..q][..r] && b[..p][..r] == b[..r] == b[..q][..r];
    if p < q {
      assert b[..q][p] == c[..q][p];
    } else if q < p {
      assert a[..p][q] == b[..p][q];
    }
    assert BelowAt(a, c, r);
  }

  lemma MarkMovesUp(items: seq<u32>, item: u32)
    requires |items| <= BRC_MAXNUM
    ensures |Mark(items, item)| <= BRC_MAXNUM
    ensures Mark(items, item) == items || Below(items, Mark(items, item))
  {
    var p := Place(items, item);
    if p == BRC_MAXNUM {
      assert (items[..p] + [item] + items[p..])[..BRC_MAXNUM] == items;
    } else if Mark(items, item) != items {
      assert Mark(items, item)[..p] == items[..p];
      assert BelowAt(items, Mark(items, item), p);
    }
  }

  lemma {:induction false} MarkAllMovesUp(items: seq<u32>, marks: seq<u32>)
    requires |items| <= BRC_MAXNUM
    ensures |MarkAll(items, marks)| <= BRC_MAXNUM
    ensures MarkAll(items, marks) == items || Below(items, MarkAll(items, marks))
    decreases |marks|
  {
    if marks != [] {
      var next := Mark(items, marks[0]);
      MarkMovesUp(items, marks[0]);
      MarkAllMovesUp(next, marks[1..]);
      if next != items && MarkAll(items, marks) != next {
        BelowTransitive(items, next, MarkAll(items, marks));
      }
    }
  }

  // ----- what a sync loses, told by the history alone

  /** Whether board `n` has been changed since the last sync: `op` changes it if it is in hand and `op` is not
      about items already read, or if it is visited for the first time. */
  function Touched(here: Name, b: Board, op: Op, n: Name, touched: bool): bool {
    if op.OpSync? then false else touched || Expected(here, b, op, n).marks != b.marks
  }

  /** At every sync the board is in hand, or nothing has been done to it since the last one. */
  ghost predicate SyncedInTime(here: Name, b: Board, ops: seq<Op>, n: Name, touched: bool)
    decreases |ops|
  {
    ops == []
    || ((ops[0].OpSync? ==> here == n || !touched)
        && SyncedInTime(Hand(here, ops[0]), Expected(here, b, ops[0], n), ops[1..], n,
                        Touched(here, b, ops[0], n, touched)))
  }

  /** No sync of the run takes away any mark of board `n`. */
  ghost predicate NothingLost(s: Store, ops: seq<Op>, n: Name)
    decreases |ops|
  {
    ops == []
    || ((ops[0].OpSync? ==> MarksOf(Sync(s), n) == MarksOf(s, n)) && NothingLost(Do(s, ops[0]), ops[1..], n))
  }

  /** Saved marks and marks differ exactly if the board has been touched since. */
  ghost predicate Unsaved(b: Board, touched: bool) {
    |b.marks| <= BRC_MAXNUM && if touched then Below(b.saved, b.marks) else b.marks == b.saved
  }

  lemma BelowDiffers(a: seq<u32>, b: seq<u32>)
    requires Below(a, b)
    ensures a != b
  {
    var p: nat :| BelowAt(a, b, p);
  }

  lemma UnsavedKeeps(here: Name, b: Board, op: Op, n: Name, touched: bool)
    requires Unsaved(b, touched) && |b.saved| <= BRC_MAXNUM
    ensures Unsaved(Expected(here, b, op, n), Touched(here, b, op, n, touched))
    ensures |Expected(here, b, op, n).saved| <= BRC_MAXNUM
  {
    var after := Expected(here, b, op, n);
    match op {
      case OpVisit(board) => assert b.marks == [] ==> BelowAt(b.marks, [1], 0);
      case OpMark(item) => MarkMovesUp(b.marks, item);
      case OpClear(t) => MarkAllMovesUp(b.marks, Cleared(t));
      case OpSync =>
    }
    if !op.OpSync? && touched && after.marks != b.marks {
      BelowTransitive(b.saved, b.marks, after.marks);
    }
  }

  /** From a store in which board `n` is saved, a run takes away none of its marks if and only if at every
      sync the board is in hand or untouched since the sync before. */
  lemma {:induction false} NothingLostIff(s: Store, ops: seq<Op>, n: Name, touched: bool)
    requires Consistent(s) && Proper(s, ops)
    requires Unsaved(BoardOf(s, n), touched) && |Saved(s, n)| <= BRC_MAXNUM
    ensures NothingLost(s, ops, n) <==> SyncedInTime(s.cur.name, BoardOf(s, n), ops, n, touched)
    decreases |ops|
  {
    if ops != [] {
      var b := BoardOf(s, n);
      if touched {
        BelowDiffers(b.saved, b.marks);
      }
      StepAnswers(s, ops[0], n);
      UnsavedKeeps(s.cur.name, b, ops[0], n, touched);
      NothingLostIff(Do(s, ops[0]), ops[1..], n, Touched(s.cur.name, b, ops[0], n, touched));
    }
  }

  /** So it is from the start, for every board. */
  lemma NothingLostFromReset(disk: seq<Rec>, ops: seq<Op>, n: Name)
    requires GoodRecs(disk) && Proper(Reset(disk), ops)
    ensures NothingLost(Reset(disk), ops, n)
            <==> SyncedInTime([], Board(Find(disk, n), Find(disk, n)), ops, n, false)
  {
    FoundIsGood(disk, n);
    NothingLostIff(Reset(disk), ops, n, false);
  }

  /** The syncs of the run left out. */
  function WithoutSyncs(ops: seq<Op>): seq<Op> {
    if ops == [] then [] else (if ops[0].OpSync? then [] else [ops[0]]) + WithoutSyncs(ops[1..])
  }

  /** A board whose syncs all come in time has the marks made on it, as if there had been no sync. */
  lemma {:induction false} InTimeIsAsWithout(here: Name, b: Board, c: Board, ops: seq<Op>, n: Name, touched: bool)
    requires SyncedInTime(here, b, ops, n, touched)
    requires Unsaved(b, touched) && |b.saved| <= BRC_MAXNUM && c.marks == b.marks
    ensures ExpectedRun(here, b, ops, n).marks == ExpectedRun(here, c, WithoutSyncs(ops), n).marks
    decreases |ops|
  {
    if ops != [] {
      var b' := Expected(here, b, ops[0], n);
      UnsavedKeeps(here, b, ops[0], n, touched);
      if ops[0].OpSync? {
        assert WithoutSyncs(ops) == WithoutSyncs(ops[1..]);
        InTimeIsAsWithout(here, b', c, ops[1..], n, false);
      } else {
        var rest := WithoutSyncs(ops[1..]);
        assert WithoutSyncs(ops) == [ops[0]] + rest && ([ops[0]] + rest)[1..] == rest;
        InTimeIsAsWithout(Hand(here, ops[0]), b', Expected(here, c, ops[0], n), ops[1..], n,
                          Touched(here, b, ops[0], n, touched));
      }
    }
  }

  // ----- two boards

  /** Leaving a board for another and coming back finds it as it was. */
  lemma ThereAndBack(s: Store, a: Name, b: Name)
    requires Consistent(s) && s.loaded && s.cur.name == a && GoodName(b)
    requires Roomy(s) && Roomy(Visit(s, b))
    ensures Visit(Visit(s, b), a).cur == s.cur
  {
    VisitKeeps(s, b);
    VisitKeeps(Visit(s, b), a);
    assert MarksOf(Visit(Visit(s, b), a), a) == MarksOf(s, a);
  }

  /** Marks made on one board are lost when the user moves to another and then syncs: the board left
      behind is only in memory, and syncing starts from the file. */
  lemma SyncLosesTheBoardLeftBehind(a: Name, b: Name, item: u32)
    requires GoodName(a) && GoodName(b) && a != b && item > 1
    ensures var s := Run(Reset([]), [OpVisit(a), OpMark(item), OpVisit(b)]);
            MarksOf(s, a) == [item, 1] && MarksOf(Sync(s), a) == []
  {
    var s1 := Visit(Reset([]), a);
    var s2 := MarkItem(s1, item);
    var s3 := Visit(s2, b);
    var ops := [OpVisit(a), OpMark(item), OpVisit(b)];
    assert ops[1..] == [OpMark(item), OpVisit(b)] && ops[1..][1..] == [OpVisit(b)] && ops[1..][1..][1..] == [];
    assert Run(s2, ops[1..][1..]) == s3;
    assert Run(s1, ops[1..]) == s3;
    assert s1.cur == Rec(a, [1]);
    assert Mark([1], item) == [item, 1];
    assert Merged(Rec(a, [item, 1]), []) == [Rec(a, [item, 1])];
    assert Merged(Rec(b, [1]), []) == [Rec(b, [1])];
  }
}

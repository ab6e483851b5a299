/** Which record files a command of backend/post.c marks as out of date. A command is announced when every
    board whose posts change has its invalidity counter raised; the refreshers of lib/post.c rely on that. */
module PostInvalidity {
  import opened MachineInts
  import opened PostTables
  import opened PostConservation
  import opened Records
  import opened PostRecord
  import Refresh = RecordRefresh
  import RecordRace

  function Counter(t: Tables, b: int): int {
    if b in t.invalid then t.invalid[b] else 0
  }

  /** The posts of board `b` change, and nothing says so. */
  predicate Silent(t: Tables, t': Tables, b: int) {
    BoardRows(t'.recent, b) != BoardRows(t.recent, b) && Counter(t', b) == Counter(t, b)
  }

  /** Every board whose posts change has its counter raised. */
  ghost predicate Announced(t: Tables, t': Tables) {
    forall b :: !Silent(t, t', b)
  }

  // ----- rows of one board

  /** Without its chosen rows a board has fewer posts exactly if one of them is on it. */
  lemma {:induction false} RejectBoard(rows: seq<Post>, chosen: Post -> bool, b: int)
    ensures |Select(Reject(rows, chosen), OnBoard(b))| <= |Select(rows, OnBoard(b))|
    ensures if exists p :: p in rows && chosen(p) && p.boardId == b
            then |Select(Reject(rows, chosen), OnBoard(b))| < |Select(rows, OnBoard(b))|
            else Select(Reject(rows, chosen), OnBoard(b)) == Select(rows, OnBoard(b))
  {
    if rows != [] {
      RejectBoard(rows[1..], chosen, b);
      assert rows == [rows[0]] + rows[1..];
      var rest := Reject(rows[1..], chosen);
      assert ([rows[0]] + rest)[1..] == rest;
    }
  }

  /** A deletion changes the posts of exactly the boards that a doomed row is on. */
  lemma DeletionChanges(t: Tables, del: DeleteReq, b: int)
    requires !Refused(t, del)
    ensures BoardRows(Delete(t, del).recent, b) != BoardRows(t.recent, b)
            <==> exists p :: p in t.recent && Doomed(del)(p) && p.boardId == b
  {
    RejectBoard(t.recent, Doomed(del), b);
  }

  lemma {:induction false} SomeSelected<T>(rows: seq<T>, chosen: T -> bool)
    ensures Select(rows, chosen) != [] <==> exists x :: x in rows && chosen(x)
  {
    if rows != [] {
      SomeSelected(rows[1..], chosen);
      assert rows == [rows[0]] + rows[1..];
    }
  }

  /** A deletion is announced exactly if every row it takes is on the board its filter names. */
  lemma DeletionAnnouncedIff(t: Tables, del: DeleteReq)
    requires !Refused(t, del)
    ensures Announced(t, Delete(t, del))
            <==> forall p :: p in t.recent && Doomed(del)(p) ==> p.boardId == del.filter.bid && p.boardId > 0
  {
    var t' := Delete(t, del);
    SomeSelected(t.recent, Doomed(del));
    forall b ensures Silent(t, t', b)
      <==> (exists p :: p in t.recent && Doomed(del)(p) && p.boardId == b) && !(b == del.filter.bid && b > 0)
    {
      DeletionChanges(t, del, b);
    }
    forall p | p in t.recent && Doomed(del)(p)
      ensures Silent(t, t', p.boardId) || (p.boardId == del.filter.bid && p.boardId > 0)
    {
    }
  }

  /** For the live tables the filter does not look at the board at all. */
  lemma LiveFilterIgnoresBoard(del: DeleteReq, p: Post, board: int)
    requires !IsDeleted(del.filter.kind)
    ensures Doomed(del)(p) == Doomed(del)(p.(boardId := board))
  {}

  /** So a request on the live tables can be relied on to announce what it does exactly if it can do
      nothing: whatever row it takes could be on another board. */
  lemma LiveDeletionAnnouncedIff(del: DeleteReq, boards: map<int, bool>)
    requires !IsDeleted(del.filter.kind) && (del.filter.bid == 0 || del.filter.bid in boards)
    ensures (forall t: Tables :: t.boards == boards ==> Announced(t, Delete(t, del))) <==> forall p :: !Doomed(del)(p)
  {
    if forall p :: !Doomed(del)(p) {
      forall t: Tables | t.boards == boards ensures Announced(t, Delete(t, del)) {
        DeletionAnnouncedIff(t, del);
      }
    } else {
      var p :| Doomed(del)(p);
      LiveFilterIgnoresBoard(del, p, del.filter.bid + 1);
      SilentTable(del, boards, p.(boardId := del.filter.bid + 1));
    }
  }

  /** A table with one row, which is doomed and on another board. */
  lemma SilentTable(del: DeleteReq, boards: map<int, bool>, p: Post)
    requires Doomed(del)(p) && p.boardId != del.filter.bid && (del.filter.bid == 0 || del.filter.bid in boards)
    ensures exists t: Tables :: t.boards == boards && !Announced(t, Delete(t, del))
  {
    var t := Tables([p], [], map[], boards, map[], 1);
    assert p in t.recent;
    DeletionAnnouncedIff(t, del);
    assert t.boards == boards;
  }

  // ----- undeleting

  lemma {:induction false} RebornBoard(rows: seq<Deleted>, b: int)
    ensures Select(Map(rows, Reborn()), OnBoard(b)) != [] <==> exists d :: d in rows && d.post.boardId == b
  {
    if rows != [] {
      RebornBoard(rows[1..], b);
      assert rows == [rows[0]] + rows[1..];
    }
  }

  /** Undeleting changes the posts of exactly the boards that a selected row is on. */
  lemma UndeletionChanges(t: Tables, f: Filter, b: int)
    ensures BoardRows(Undelete(t, f).recent, b) != BoardRows(t.recent, b)
            <==> exists d :: d in t.deleted && InFilter(f)(d) && d.post.boardId == b
  {
    var back := Select(t.deleted, InFilter(f));
    SelectAppend(t.recent, Map(back, Reborn()), OnBoard(b));
    RebornBoard(back, b);
    SelectedMembers(t.deleted, InFilter(f));
    var before, back' := Select(t.recent, OnBoard(b)), Select(Map(back, Reborn()), OnBoard(b));
    if back' == [] {
      assert before + back' == before;
    }
  }

  /** So it is announced exactly if every row it takes is on the board its filter names. */
  lemma UndeletionAnnouncedIff(t: Tables, f: Filter)
    ensures Announced(t, Undelete(t, f))
            <==> forall d :: d in t.deleted && InFilter(f)(d) ==> d.post.boardId == f.bid && f.bid > 0
  {
    var t' := Undelete(t, f);
    SomeSelected(t.deleted, InFilter(f));
    forall b ensures Silent(t, t', b)
      <==> (exists d :: d in t.deleted && InFilter(f)(d) && d.post.boardId == b) && !(b == f.bid && b > 0)
    {
      UndeletionChanges(t, f, b);
    }
    forall d | d in t.deleted && InFilter(f)(d)
      ensures Silent(t, t', d.post.boardId) || (d.post.boardId == f.bid && f.bid > 0)
    {
    }
  }

  /** The filters of trash and junk name the board, and those are the ones that can be relied on. */
  lemma UndeletionReliableIff(f: Filter)
    ensures (forall t: Tables :: Announced(t, Undelete(t, f)))
            <==> (IsDeleted(f.kind) && f.bid > 0) || forall d :: !InFilter(f)(d)
  {
    if (IsDeleted(f.kind) && f.bid > 0) || forall d :: !InFilter(f)(d) {
      forall t: Tables ensures Announced(t, Undelete(t, f)) {
        UndeletionAnnouncedIff(t, f);
      }
    } else {
      var d :| InFilter(f)(d);
      var e := if IsDeleted(f.kind) then d else d.(post := d.post.(boardId := f.bid + 1));
      assert InFilter(f)(e);
      var t := Tables([], [e], map[], map[], map[], 1);
      assert e in t.deleted;
      UndeletionAnnouncedIff(t, f);
    }
  }

  // ----- new posts, and all commands

  lemma NewAppends(t: Tables, req: NewReq, b: int)
    requires KnownAuthor(t, req)
    ensures Select(New(t, req).recent, OnBoard(b))
         == Select(t.recent, OnBoard(b)) + if req.boardId == b then [NewRow(t, req)] else []
  {
    var row := NewRow(t, req);
    SelectAppend(t.recent, [row], OnBoard(b));
    assert [row][1..] == [];
  }

  /** A new post is announced exactly if its board has a proper number. */
  lemma NewAnnouncedIff(t: Tables, req: NewReq)
    requires KnownAuthor(t, req)
    ensures Announced(t, New(t, req)) <==> req.boardId > 0
  {
    forall b ensures Silent(t, New(t, req), b) <==> b == req.boardId && b <= 0 {
      NewAppends(t, req, b);
      assert Select(t.recent, OnBoard(b)) + [] == Select(t.recent, OnBoard(b));
    }
    assert Silent(t, New(t, req), req.boardId) <==> req.boardId <= 0;
  }

  /** What a command is to the record file of board `b`: a commit still to be announced, if it will be. */
  function Events(t: Tables, t': Tables, b: int): seq<Refresh.Event> {
    if Counter(t', b) == Counter(t, b) then [] else [Refresh.Commit(BoardRows(t'.recent, b))]
  }

  lemma CountersRise(t: Tables, c: Command, b: int)
    ensures Counter(Do(t, c), b) == Counter(t, b) || Counter(Do(t, c), b) == Counter(t, b) + 1
  {}

  /** A command is such a commit exactly if it is not silent on the board. */
  lemma CommandIsCommit(t: Tables, c: Command, b: int, s: Refresh.Sys)
    requires s.rows == BoardRows(t.recent, b)
    ensures var t', s' := Do(t, c), Refresh.Run(s, Events(t, Do(t, c), b));
            && s' == s.(rows := s'.rows, pending := s.pending + Counter(t', b) - Counter(t, b))
            && (s'.rows == BoardRows(t'.recent, b) <==> !Silent(t, t', b))
  {
    CountersRise(t, c, b);
    var es := Events(t, Do(t, c), b);
    if es != [] {
      assert es[1..] == [];
      assert Refresh.Run(s, es) == Refresh.Run(Refresh.Step(s, es[0]), es[1..]);
    }
  }

  /** A change of a board's posts is a change of their number. */
  lemma ChangedIsLonger(t: Tables, c: Command, b: int)
    requires BoardRows(Do(t, c).recent, b) != BoardRows(t.recent, b)
    ensures |BoardRows(Do(t, c).recent, b)| != |BoardRows(t.recent, b)|
  {
    match c
    case CmdNew(req) =>
      if KnownAuthor(t, req) {
        NewAppends(t, req, b);
        assert Select(t.recent, OnBoard(b)) + [] == Select(t.recent, OnBoard(b));
      }
    case CmdDelete(del) => RejectBoard(t.recent, Doomed(del), b);
    case CmdUndelete(f) =>
      var back := Map(Select(t.deleted, InFilter(f)), Reborn());
      SelectAppend(t.recent, back, OnBoard(b));
      if Select(back, OnBoard(b)) == [] {
        assert Select(t.recent, OnBoard(b)) + [] == Select(t.recent, OnBoard(b));
      }
  }

  /** After a silent command a record file that was up to date is not, whatever its counter says. */
  lemma SilentMeansStale(t: Tables, c: Command, b: int)
    requires Silent(t, Do(t, c), b)
    ensures Sort(BoardRows(t.recent, b)) != Sort(BoardRows(Do(t, c).recent, b))
  {
    ChangedIsLonger(t, c, b);
    Refresh.SortLength(BoardRows(t.recent, b));
    Refresh.SortLength(BoardRows(Do(t, c).recent, b));
  }

  // ----- backends and refreshers together

  datatype Act = Backend(c: Command) | Refresher(e: Refresh.Event)

  function After(t: Tables, acts: seq<Act>): Tables
    decreases |acts|
  {
    if acts == [] then t else After(if acts[0].Backend? then Do(t, acts[0].c) else t, acts[1..])
  }

  /** What the acts are to the record file of board `b`. */
  function Trace(t: Tables, acts: seq<Act>, b: int): seq<Refresh.Event>
    decreases |acts|
  {
    if acts == [] then []
    else
      match acts[0]
      case Backend(c) => Events(t, Do(t, c), b) + Trace(Do(t, c), acts[1..], b)
      case Refresher(e) => [e] + Trace(t, acts[1..], b)
  }

  /** Only backends change the table, and none changes board `b` silently. */
  predicate NeverSilent(t: Tables, acts: seq<Act>, b: int)
    decreases |acts|
  {
    if acts == [] then true
    else
      match acts[0]
      case Backend(c) => !Silent(t, Do(t, c), b) && NeverSilent(Do(t, c), acts[1..], b)
      case Refresher(e) => !e.Commit? && NeverSilent(t, acts[1..], b)
  }

  lemma {:induction false} TraceFollows(t: Tables, acts: seq<Act>, b: int, s: Refresh.Sys)
    requires s.rows == BoardRows(t.recent, b) && NeverSilent(t, acts, b)
    ensures Refresh.Run(s, Trace(t, acts, b)).rows == BoardRows(After(t, acts).recent, b)
    decreases |acts|
  {
    if acts != [] {
      match acts[0]
      case Backend(c) =>
        var es := Events(t, Do(t, c), b);
        CommandIsCommit(t, c, b, s);
        RecordRace.PaidAppend(s, es, Trace(Do(t, c), acts[1..], b));
        TraceFollows(Do(t, c), acts[1..], b, Refresh.Run(s, es));
      case Refresher(e) =>
        RecordRace.RunTwo(s, e, Trace(t, acts[1..], b));
        RowsStay(s, e);
        TraceFollows(t, acts[1..], b, Refresh.Step(s, e));
    }
  }

  lemma RowsStay(s: Refresh.Sys, e: Refresh.Event)
    requires !e.Commit?
    ensures Refresh.Step(s, e).rows == s.rows
  {}

  /** Over every interleaving of backends and any number of refreshers in which no command is silent on the
      board and whoever takes the lock finds what it read counted or about to be: a zero counter with nothing
      outstanding means that the board's file holds exactly its posts in the tables. */
  lemma ZeroMeansBoardCurrent(t: Tables, acts: seq<Act>, b: int)
    requires NeverSilent(t, acts, b)
    requires Refresh.Guarded(Refresh.Init(BoardRows(t.recent, b)), Trace(t, acts, b))
    ensures var s := Refresh.Run(Refresh.Init(BoardRows(t.recent, b)), Trace(t, acts, b));
            s.counter == 0 && s.pending == 0 && s.file.Some?
            && (forall p :: p in s.phases ==> s.phases[p].k > 0 || s.phases[p].HasPaid?)
            ==> s.file.value == Sort(BoardRows(After(t, acts).recent, b))
  {
    Refresh.ZeroMeansCurrent(BoardRows(t.recent, b), Trace(t, acts, b));
    TraceFollows(t, acts, b, Refresh.Init(BoardRows(t.recent, b)));
  }

  lemma {:induction false} IdCounted(rows: seq<Post>, i: nat)
    requires i < |rows|
    ensures Ids(rows)[rows[i].id] >= 1
  {
    if i > 0 {
      IdCounted(rows[1..], i - 1);
    }
  }

  /** Ids that are conserved are distinct. */
  lemma {:induction false} IdsDistinct(rows: seq<Post>)
    requires forall x :: Ids(rows)[x] <= 1
    ensures DistinctIds(rows)
  {
    if rows != [] {
      forall x ensures Ids(rows[1..])[x] <= 1 {
        assert Ids(rows)[x] <= 1;
      }
      IdsDistinct(rows[1..]);
      forall j | 0 < j < |rows| ensures rows[0].id != rows[j].id {
        IdCounted(rows[1..], j - 1);
        assert Ids(rows)[rows[0].id] <= 1;
      }
    }
  }

  lemma {:induction false} AfterConserves(t: Tables, acts: seq<Act>, from: int)
    requires Conserved(t, from) && from <= t.nextId
    ensures DistinctIds(After(t, acts).recent)
    decreases |acts|
  {
    if acts == [] {
      forall x ensures Ids(t.recent)[x] <= 1 {
        IssuedOnce(from, t.nextId, x);
        assert (Ids(t.recent) + DeletedIds(t.deleted))[x] == Issued(from, t.nextId)[x];
      }
      IdsDistinct(t.recent);
    } else if acts[0].Backend? {
      DoConserves(t, acts[0].c, from);
      AfterConserves(Do(t, acts[0].c), acts[1..], from);
    } else {
      AfterConserves(t, acts[1..], from);
    }
  }

  /** So with tables in which every id given out is in one place, a zero counter with nothing outstanding means that
      the file lists number and title of exactly the board's posts, in ascending order. */
  lemma ZeroMeansFileListsBoard(t: Tables, acts: seq<Act>, b: int, from: int)
    requires NeverSilent(t, acts, b) && Conserved(t, from) && from <= t.nextId
    requires Refresh.Guarded(Refresh.Init(BoardRows(t.recent, b)), Trace(t, acts, b))
    ensures var s := Refresh.Run(Refresh.Init(BoardRows(t.recent, b)), Trace(t, acts, b));
            s.counter == 0 && s.pending == 0 && s.file.Some?
            && (forall p :: p in s.phases ==> s.phases[p].k > 0 || s.phases[p].HasPaid?)
            ==> && (forall i, j :: 0 <= i < j < |s.file.value| ==> s.file.value[i].key < s.file.value[j].key)
                && (forall r :: r in s.file.value
                      <==> exists p :: p in After(t, acts).recent
                                       && p.boardId == b && p.id == r.key && p.title == r.body)
  {
    ZeroMeansBoardCurrent(t, acts, b);
    AfterConserves(t, acts, from);
    SortedPosts(After(t, acts).recent, b);
  }

  // ----- a deletion that misses a board

  /** A deletion on board 1 takes a post of board 2, whose counter has not moved. */
  lemma DeletionMissesABoard() returns (t: Tables, del: DeleteReq)
    ensures del.filter.bid == 1 && 1 in t.boards && 2 in t.boards && Silent(t, Delete(t, del), 2)
  {
    var p := Post(7, 7, 5, "author", 2, false, false, false, false, "");
    var f := Filter(ListNormal, 1, false, false, false, 0, false, s => true, 7, 7, 0);
    del := DeleteReq(f, false, true, true);
    t := Tables([p], [], map["author" := 1], map[1 := false, 2 := false], map[], 8);
    assert p in t.recent && Doomed(del)(p);
    DeletionChanges(t, del, 2);
  }
}

/** What the commands of backend/post.c do to the rows and the counters, told from the tables before them and the
    request alone. */
module PostEffects {
  import opened MachineInts
  import opened PostTables
  import opened PostConservation

  // ----- filters, option by option

  /** Each option of a filter that is set leaves the rows that also have what it asks for. */
  lemma FilterByOption(f: Filter, p: Post, vis: bool)
    ensures Matches(f, p, vis) <==> Matches(f.(digest := false), p, vis) && (f.digest ==> p.digest)
    ensures Matches(f, p, vis) <==> Matches(f.(marked := false), p, vis) && (f.marked ==> p.marked)
    ensures Matches(f, p, vis) <==> Matches(f.(water := false), p, vis) && (f.water ==> p.water)
    ensures Matches(f, p, vis) <==> Matches(f.(uid := 0), p, vis) && (f.uid == 0 || p.userId == f.uid)
    ensures Matches(f, p, vis) <==> Matches(f.(keyword := false), p, vis) && (f.keyword ==> f.titleLike(p.title))
  {}

  /** The same of the options that lists by threads read differently. */
  lemma FilterByPlace(f: Filter, p: Post, vis: bool)
    ensures !f.kind.ListThread? ==>
              (Matches(f, p, vis) <==> Matches(f.(min := 0), p, vis) && (f.min == 0 || f.min <= p.id))
    ensures !f.kind.ListThread? ==>
              (Matches(f, p, vis) <==> Matches(f.(max := 0), p, vis) && (f.max == 0 || p.id <= f.max))
    ensures !f.kind.ListThread? ==>
              (Matches(f, p, vis) <==> Matches(f.(tid := 0), p, vis) && (f.tid == 0 || p.threadId == f.tid))
  {}

  /** The lists: of first posts of threads, of the two kinds of deleted posts of a board, and of all posts. */
  lemma FilterByKind(f: Filter, p: Post, vis: bool)
    requires f.kind == ListNormal
    ensures Matches(f.(kind := ListTopic), p, vis) <==> Matches(f, p, vis) && p.id == p.threadId
    ensures Matches(f.(kind := ListTrash), p, vis)
            <==> Matches(f, p, vis) && vis && (f.bid == 0 || p.boardId == f.bid)
    ensures Matches(f.(kind := ListJunk), p, vis)
            <==> Matches(f, p, vis) && !vis && (f.bid == 0 || p.boardId == f.bid)
    ensures Matches(f.(kind := ListOther), p, vis) <==> Matches(f, p, vis)
    ensures !f.digest && !f.marked && !f.water && f.uid == 0 && !f.keyword && f.min == 0 && f.max == 0 && f.tid == 0
            ==> Matches(f, p, vis)
  {}

  /** By thread first, and by number within a thread. */
  predicate Earlier(p: Post, q: Post) {
    p.threadId < q.threadId || (p.threadId == q.threadId && p.id < q.id)
  }

  /** Two pages of a list by threads, one from a post on and one up to the post before: each post is on exactly one,
      and the posts of the second all come before those of the first. */
  lemma ThreadPages(f: Filter, from: int, p: Post, q: Post, vis: bool)
    requires f.kind.ListThread? && f.tid != 0 && f.min == 0 && f.max == 0 && from != 0 && from != 1
    ensures var later, before := f.(min := from), f.(max := from - 1);
            && (Matches(f, p, vis) <==> Matches(later, p, vis) || Matches(before, p, vis))
            && !(Matches(later, p, vis) && Matches(before, p, vis))
            && (Matches(later, p, vis) && Matches(before, q, vis) ==> Earlier(q, p))
            && (Matches(f, p, vis) ==>
                  (Matches(later, p, vis) <==> p.threadId > f.tid || (p.threadId == f.tid && p.id >= from)))
  {}

  // ----- counting rows

  function Places<T>(rows: seq<T>, chosen: T -> bool): set<int> {
    set i | 0 <= i < |rows| && chosen(rows[i])
  }

  lemma {:induction false} SelectedCount<T>(rows: seq<T>, chosen: T -> bool)
    ensures |Select(rows, chosen)| == |Places(rows, chosen)|
  {
    if rows != [] {
      var n := |rows| - 1;
      var front, last := rows[..n], [rows[n]];
      assert rows == front + last && last[1..] == [];
      SelectAppend(front, last, chosen);
      SelectedCount(front, chosen);
      assert Places(rows, chosen) == Places(front, chosen) + if chosen(rows[n]) then {n} else {};
      assert n !in Places(front, chosen);
    }
  }

  /** A row of `u` that counts against `u` when the request deletes it. */
  function Charged(del: DeleteReq, u: string): Post -> bool {
    (p: Post) => Doomed(del)(p) && p.userName == u && p.userId != 0 && (p.water || del.junk)
  }

  lemma {:induction false} ChargedCount(rows: seq<Post>, del: DeleteReq, decrease: bool, u: string)
    ensures Counting(Map(Select(rows, Doomed(del)), ToDeleted(del, decrease)), u)
         == if decrease then |Select(rows, Charged(del, u))| else 0
  {
    if rows != [] {
      ChargedCount(rows[1..], del, decrease, u);
      if Doomed(del)(rows[0]) {
        var moved := Map(Select(rows, Doomed(del)), ToDeleted(del, decrease));
        assert moved[1..] == Map(Select(rows[1..], Doomed(del)), ToDeleted(del, decrease));
      }
    }
  }

  /** The board named in the request is a junk board. */
  predicate JunkBoard(t: Tables, del: DeleteReq) {
    del.filter.bid != 0 && del.filter.bid in t.boards && t.boards[del.filter.bid]
  }

  // ----- deleting

  /** A deletion takes from the live table what its filter selects, but never a sticky post, and a marked one only
      if it is forced. */
  lemma DeletionTakes(t: Tables, del: DeleteReq, p: Post)
    requires !Refused(t, del)
    ensures p in Delete(t, del).recent
            <==> p in t.recent && (p.sticky || (p.marked && !del.force) || !Matches(del.filter, p, false))
  {
    SelectedMembers(t.recent, Doomed(del));
  }

  /** What it takes is in the deleted table afterwards, with the junk mark if the board named is no junk board and
      the post is water or deleted as junk. */
  lemma DeletionMoves(t: Tables, del: DeleteReq, d: Deleted)
    requires !Refused(t, del)
    ensures d in Delete(t, del).deleted
            <==> || d in t.deleted
                 || (&& d.post in t.recent && d.post !in Delete(t, del).recent
                     && d.bmVisible == del.bmVisible
                     && d.junk == (!JunkBoard(t, del) && (d.post.water || del.junk)))
  {
    SelectedMembers(t.recent, Doomed(del));
    var rows, f := Select(t.recent, Doomed(del)), ToDeleted(del, !JunkBoard(t, del));
    if d in Moved(t, del) {
      MapMembers(rows, f, d);
    }
    if d.post in rows {
      MapHas(rows, f, d.post);
    }
  }

  lemma {:induction false} MapHas<S, T>(rows: seq<S>, f: S -> T, x: S)
    requires x in rows
    ensures f(x) in Map(rows, f)
  {
    assert rows == [rows[0]] + rows[1..];
    if x != rows[0] {
      MapHas(rows[1..], f, x);
    }
  }

  /** The places of the posts of `u` that a deletion takes, that carry the user's id, and that are water or deleted as
      junk. */
  function TakenOf(rows: seq<Post>, del: DeleteReq, u: string): set<int> {
    set i | 0 <= i < |rows| && rows[i].userName == u && rows[i].userId != 0 && (rows[i].water || del.junk)
            && Matches(del.filter, rows[i], false) && (del.force || !rows[i].marked) && !rows[i].sticky
  }

  /** A user's counter falls by their number, and not at all if the board named is a junk board. */
  lemma DeletionLowers(t: Tables, del: DeleteReq, u: string)
    requires !Refused(t, del) && u in t.numposts
    ensures var before: int := t.numposts[u];
            u in Delete(t, del).numposts
            && Delete(t, del).numposts[u]
                 == ToU32(before - if JunkBoard(t, del) then 0 else |TakenOf(t.recent, del, u)|)
  {
    ChargedCount(t.recent, del, !JunkBoard(t, del), u);
    SelectedCount(t.recent, Charged(del, u));
    assert Places(t.recent, Charged(del, u)) == TakenOf(t.recent, del, u);
  }

  // ----- undeleting

  /** Undeleting brings the rows the filter selects back, no longer sticky, */
  lemma UndeletionReturns(t: Tables, f: Filter, p: Post, d: Deleted)
    ensures p in Undelete(t, f).recent
            <==> || p in t.recent
                 || exists e :: e in t.deleted && Matches(f, e.post, e.bmVisible) && p == e.post.(sticky := false)
    ensures d in Undelete(t, f).deleted <==> d in t.deleted && !Matches(f, d.post, d.bmVisible)
  {
    SelectedMembers(t.deleted, InFilter(f));
    var back := Select(t.deleted, InFilter(f));
    if p in Map(back, Reborn()) {
      MapMembers(back, Reborn(), p);
    }
    if e :| e in t.deleted && Matches(f, e.post, e.bmVisible) && p == e.post.(sticky := false) {
      MapHas(back, Reborn(), e);
    }
  }

  function Credited(f: Filter, u: string): Deleted -> bool {
    (d: Deleted) => InFilter(f)(d) && d.post.userName == u && d.post.userId != 0 && d.junk
  }

  lemma {:induction false} CreditedCount(rows: seq<Deleted>, f: Filter, u: string)
    ensures Counting(Select(rows, InFilter(f)), u) == |Select(rows, Credited(f, u))|
  {
    if rows != [] {
      CreditedCount(rows[1..], f, u);
      if InFilter(f)(rows[0]) {
        DeletedCons(rows[0], Select(rows[1..], InFilter(f)));
      }
    }
  }

  /** The places of the deleted posts of `u` that a filter selects and that carry the user's id and the junk mark. */
  function ReturnedOf(rows: seq<Deleted>, f: Filter, u: string): set<int> {
    set i | 0 <= i < |rows| && rows[i].post.userName == u && rows[i].post.userId != 0 && rows[i].junk
            && Matches(f, rows[i].post, rows[i].bmVisible)
  }

  /** and a user's counter rises by their number. */
  lemma UndeletionRaises(t: Tables, f: Filter, u: string)
    requires u in t.numposts
    ensures var before: int := t.numposts[u];
            u in Undelete(t, f).numposts
            && Undelete(t, f).numposts[u] == ToU32(before + |ReturnedOf(t.deleted, f, u)|)
  {
    CreditedCount(t.deleted, f, u);
    SelectedCount(t.deleted, Credited(f, u));
    assert Places(t.deleted, Credited(f, u)) == ReturnedOf(t.deleted, f, u);
  }

  // ----- new posts

  /** A new post starts a thread of its own or continues the one named, and hides its author if asked to. */
  lemma NewPostIs(t: Tables, req: NewReq)
    requires KnownAuthor(t, req)
    ensures var t' := New(t, req);
            && t'.recent[..|t.recent|] == t.recent && |t'.recent| == |t.recent| + 1 && t'.deleted == t.deleted
            && var p := t'.recent[|t.recent|];
               && p.id == t.nextId < t'.nextId
               && (req.threadId == 0 ==> p.threadId == p.id) && (req.threadId != 0 ==> p.threadId == req.threadId)
               && p.title == req.title && p.userName == req.userName && p.boardId == req.boardId
               && (req.hideUserId || req.anonymous ==> p.userId == 0)
               && (!req.hideUserId && !req.anonymous ==> p.userId == req.userId)
               && p.marked == req.marked && !p.sticky && !p.digest && !p.water
  {}

  /** The author's counter rises by one for a post that shows its author on a known board that is no junk board;
      no other counter changes. */
  lemma NewPostRaises(t: Tables, req: NewReq, u: string)
    requires KnownAuthor(t, req) && u in t.numposts
    ensures var before: int := t.numposts[u];
            var counts := && u == req.userName && req.boardId in t.boards && !t.boards[req.boardId]
                          && !req.hideUserId && !req.anonymous;
            u in New(t, req).numposts && New(t, req).numposts[u] == ToU32(before + if counts then 1 else 0)
  {}
}

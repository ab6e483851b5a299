/** Conservation over every run of backend/post.c: no post is lost or doubled, and every user's counter
    is what the history of inserts and the deleted table say. */
module PostConservation {
  import opened MachineInts
  import opened PostTables

  datatype Command = CmdNew(req: NewReq) | CmdDelete(del: DeleteReq) | CmdUndelete(filter: Filter)

  /** The author of a post that carries a user id has a counter. */
  predicate KnownAuthor(t: Tables, req: NewReq) {
    req.hideUserId || req.anonymous || req.userName in t.numposts
  }

  function Do(t: Tables, c: Command): Tables {
    match c
    case CmdNew(req) => if KnownAuthor(t, req) then New(t, req) else t
    case CmdDelete(del) => Delete(t, del)
    case CmdUndelete(f) => Undelete(t, f)
  }

  function Run(t: Tables, cs: seq<Command>): Tables
    decreases |cs|
  {
    if cs == [] then t else Run(Do(t, cs[0]), cs[1..])
  }

  /** How many of the run's inserts counted for `u`. */
  function CountedInserts(t: Tables, cs: seq<Command>, u: string): nat
    decreases |cs|
  {
    if cs == [] then 0
    else
      (if cs[0].CmdNew? && KnownAuthor(t, cs[0].req) && Counted(t, cs[0].req) && cs[0].req.userName == u
       then 1 else 0)
      + CountedInserts(Do(t, cs[0]), cs[1..], u)
  }

  // ----- ids

  function Ids(rows: seq<Post>): multiset<int> {
    if rows == [] then multiset{} else multiset{rows[0].id} + Ids(rows[1..])
  }

  function DeletedIds(rows: seq<Deleted>): multiset<int> {
    if rows == [] then multiset{} else multiset{rows[0].post.id} + DeletedIds(rows[1..])
  }

  /** The ids given out so far, each once. */
  function Issued(from: int, until: int): multiset<int>
    decreases until - from
  {
    if until <= from then multiset{} else Issued(from, until - 1) + multiset{until - 1}
  }

  lemma {:induction false} IssuedOnce(from: int, until: int, i: int)
    ensures Issued(from, until)[i] == if from <= i < until then 1 else 0
    decreases until - from
  {
    if from < until {
      IssuedOnce(from, until - 1, i);
    }
  }

  /** Every id given out since `from` is in exactly one of the two tables, once, and nothing else is. */
  ghost predicate Conserved(t: Tables, from: int) {
    Ids(t.recent) + DeletedIds(t.deleted) == Issued(from, t.nextId)
  }

  lemma {:induction false} IdsAppend(a: seq<Post>, b: seq<Post>)
    ensures Ids(a + b) == Ids(a) + Ids(b)
  {
    if a == [] {
      assert a + b == b;
    } else {
      assert (a + b)[1..] == a[1..] + b;
      IdsAppend(a[1..], b);
    }
  }

  lemma {:induction false} DeletedIdsAppend(a: seq<Deleted>, b: seq<Deleted>)
    ensures DeletedIds(a + b) == DeletedIds(a) + DeletedIds(b)
  {
    if a == [] {
      assert a + b == b;
    } else {
      assert (a + b)[1..] == a[1..] + b;
      DeletedIdsAppend(a[1..], b);
    }
  }

  lemma IdsCons(p: Post, rest: seq<Post>)
    ensures Ids([p] + rest) == multiset{p.id} + Ids(rest)
  {
    assert ([p] + rest)[1..] == rest;
  }

  lemma DeletedCons(d: Deleted, rest: seq<Deleted>)
    ensures DeletedIds([d] + rest) == multiset{d.post.id} + DeletedIds(rest)
    ensures forall u :: Counting([d] + rest, u) == CountsFor(d, u) + Counting(rest, u)
  {
    assert ([d] + rest)[1..] == rest;
  }

  lemma {:induction false} SplitIds(rows: seq<Post>, chosen: Post -> bool)
    ensures Ids(Select(rows, chosen)) + Ids(Reject(rows, chosen)) == Ids(rows)
  {
    if rows != [] {
      SplitIds(rows[1..], chosen);
      IdsCons(rows[0], Select(rows[1..], chosen));
      IdsCons(rows[0], Reject(rows[1..], chosen));
    }
  }

  lemma {:induction false} SplitDeletedIds(rows: seq<Deleted>, chosen: Deleted -> bool)
    ensures DeletedIds(Select(rows, chosen)) + DeletedIds(Reject(rows, chosen)) == DeletedIds(rows)
  {
    if rows != [] {
      SplitDeletedIds(rows[1..], chosen);
      DeletedCons(rows[0], Select(rows[1..], chosen));
      DeletedCons(rows[0], Reject(rows[1..], chosen));
    }
  }

  lemma {:induction false} SplitCounting(rows: seq<Deleted>, chosen: Deleted -> bool, u: string)
    ensures Counting(Select(rows, chosen), u) + Counting(Reject(rows, chosen), u) == Counting(rows, u)
  {
    if rows != [] {
      SplitCounting(rows[1..], chosen, u);
      DeletedCons(rows[0], Select(rows[1..], chosen));
      DeletedCons(rows[0], Reject(rows[1..], chosen));
    }
  }

  lemma {:induction false} MapKeepsIds(rows: seq<Post>, req: DeleteReq, decrease: bool)
    ensures DeletedIds(Map(rows, ToDeleted(req, decrease))) == Ids(rows)
  {
    if rows != [] {
      MapKeepsIds(rows[1..], req, decrease);
      var m := Map(rows, ToDeleted(req, decrease));
      assert m[1..] == Map(rows[1..], ToDeleted(req, decrease));
    }
  }

  lemma {:induction false} RebornKeepsIds(rows: seq<Deleted>)
    ensures Ids(Map(rows, Reborn())) == DeletedIds(rows)
  {
    if rows != [] {
      RebornKeepsIds(rows[1..]);
      assert Map(rows, Reborn())[1..] == Map(rows[1..], Reborn());
    }
  }

  // ----- counters

  lemma {:induction false} CountingAppend(a: seq<Deleted>, b: seq<Deleted>, u: string)
    ensures Counting(a + b, u) == Counting(a, u) + Counting(b, u)
  {
    if a == [] {
      assert a + b == b;
    } else {
      assert (a + b)[1..] == a[1..] + b;
      CountingAppend(a[1..], b, u);
    }
  }

  // ----- the steps

  lemma NewConserves(t: Tables, req: NewReq, from: int)
    requires Conserved(t, from) && from <= t.nextId && KnownAuthor(t, req)
    ensures Conserved(New(t, req), from)
  {
    IdsAppend(t.recent, [NewRow(t, req)]);
    IdsCons(NewRow(t, req), []);
  }

  lemma DeleteConserves(t: Tables, del: DeleteReq, from: int)
    requires Conserved(t, from)
    ensures Conserved(Delete(t, del), from)
  {
    if !Refused(t, del) {
      SplitIds(t.recent, Doomed(del));
      MapKeepsIds(Select(t.recent, Doomed(del)), del, !(del.filter.bid != 0 && t.boards[del.filter.bid]));
      DeletedIdsAppend(t.deleted, Moved(t, del));
    }
  }

  lemma UndeleteConserves(t: Tables, f: Filter, from: int)
    requires Conserved(t, from)
    ensures Conserved(Undelete(t, f), from)
  {
    var back := Select(t.deleted, InFilter(f));
    SplitDeletedIds(t.deleted, InFilter(f));
    RebornKeepsIds(back);
    IdsAppend(t.recent, Map(back, Reborn()));
  }

  lemma DoConserves(t: Tables, c: Command, from: int)
    requires Conserved(t, from) && from <= t.nextId
    ensures Conserved(Do(t, c), from) && from <= Do(t, c).nextId
  {
    match c {
      case CmdNew(req) => if KnownAuthor(t, req) { NewConserves(t, req, from); }
      case CmdDelete(del) => DeleteConserves(t, del, from);
      case CmdUndelete(f) => UndeleteConserves(t, f, from);
    }
  }

  lemma {:induction false} RunConserves(t: Tables, cs: seq<Command>, from: int)
    requires Conserved(t, from) && from <= t.nextId
    ensures Conserved(Run(t, cs), from)
    decreases |cs|
  {
    if cs != [] {
      DoConserves(t, cs[0], from);
      RunConserves(Do(t, cs[0]), cs[1..], from);
    }
  }

  /** After any run from empty tables, every id given out is in exactly one table, exactly once, and no
      other id is in either. */
  lemma PostsConserved(t: Tables, cs: seq<Command>, id: int)
    requires t.recent == [] && t.deleted == []
    ensures var t' := Run(t, cs);
            Ids(t'.recent)[id] + DeletedIds(t'.deleted)[id] == if t.nextId <= id < t'.nextId then 1 else 0
  {
    RunConserves(t, cs, t.nextId);
    IssuedOnce(t.nextId, Run(t, cs).nextId, id);
    var t' := Run(t, cs);
    assert (Ids(t'.recent) + DeletedIds(t'.deleted))[id] == Issued(t.nextId, t'.nextId)[id];
  }

  /** A counter read together with the deleted rows that still count against the user. */
  function Settled(t: Tables, u: string): int
    requires u in t.numposts
  {
    t.numposts[u] + Counting(t.deleted, u)
  }

  lemma NewSettles(t: Tables, req: NewReq, u: string)
    requires u in t.numposts && KnownAuthor(t, req)
    ensures u in New(t, req).numposts
    ensures ToU32(Settled(New(t, req), u))
         == ToU32(Settled(t, u) + if Counted(t, req) && req.userName == u then 1 else 0)
  {
    var n: int := t.numposts[u];
    ToU32Add(n + 1, Counting(t.deleted, u));
  }

  lemma DeleteSettles(t: Tables, del: DeleteReq, u: string)
    requires u in t.numposts
    ensures u in Delete(t, del).numposts && ToU32(Settled(Delete(t, del), u)) == ToU32(Settled(t, u))
  {
    if !Refused(t, del) {
      var moved := Counting(Moved(t, del), u);
      CountingAppend(t.deleted, Moved(t, del), u);
      StepThenAdd(t.numposts[u], false, moved, Counting(t.deleted, u) + moved);
    }
  }

  lemma UndeleteSettles(t: Tables, f: Filter, u: string)
    requires u in t.numposts
    ensures u in Undelete(t, f).numposts && ToU32(Settled(Undelete(t, f), u)) == ToU32(Settled(t, u))
  {
    SplitCounting(t.deleted, InFilter(f), u);
    StepThenAdd(t.numposts[u], true, Counting(Select(t.deleted, InFilter(f)), u),
                Counting(Reject(t.deleted, InFilter(f)), u));
  }

  lemma StepThenAdd(n: u32, up: bool, k: nat, more: nat)
    ensures ToU32(Step(n, up, k) + more) == ToU32((if up then n as int + k else n as int - k) + more)
  {
    ToU32Add(if up then n as int + k else n as int - k, more);
  }

  lemma StepSettles(t: Tables, c: Command, u: string)
    requires u in t.numposts
    ensures u in Do(t, c).numposts
    ensures ToU32(Settled(Do(t, c), u)) == ToU32(Settled(t, u) + CountedInserts(t, [c], u))
  {
    assert [c][1..] == [];
    match c {
      case CmdNew(req) => if KnownAuthor(t, req) { NewSettles(t, req, u); }
      case CmdDelete(del) => DeleteSettles(t, del, u);
      case CmdUndelete(f) => UndeleteSettles(t, f, u);
    }
  }

  /** After any run a user's counter is its start value, plus the inserts that counted, minus the rows in
      the deleted table that count against the user (those with a user id and the junk mark), in
      unsigned arithmetic. */
  lemma {:induction false} CountersConserved(t: Tables, cs: seq<Command>, u: string)
    requires u in t.numposts
    ensures var t' := Run(t, cs);
            u in t'.numposts
            && t'.numposts[u] == ToU32(Settled(t, u) + CountedInserts(t, cs, u) - Counting(t'.deleted, u))
    decreases |cs|
  {
    if cs != [] {
      StepSettles(t, cs[0], u);
      CountersConserved(Do(t, cs[0]), cs[1..], u);
      var one := CountedInserts(t, [cs[0]], u);
      assert [cs[0]][1..] == [] && CountedInserts(t, cs, u) == one + CountedInserts(Do(t, cs[0]), cs[1..], u);
      ToU32Congruent(Settled(Do(t, cs[0]), u), Settled(t, u) + one,
                     CountedInserts(Do(t, cs[0]), cs[1..], u) - Counting(Run(t, cs).deleted, u));
    }
  }

  // ----- authors

  /** Every row that carries a user id names a user with a counter. */
  ghost predicate AuthorsKnown(t: Tables) {
    && (forall p :: p in t.recent && p.userId != 0 ==> p.userName in t.numposts)
    && (forall d :: d in t.deleted && d.post.userId != 0 ==> d.post.userName in t.numposts)
  }

  lemma {:induction false} SelectedMembers<T>(rows: seq<T>, chosen: T -> bool)
    ensures forall x :: x in Select(rows, chosen) <==> x in rows && chosen(x)
    ensures forall x :: x in Reject(rows, chosen) <==> x in rows && !chosen(x)
  {
    if rows != [] {
      SelectedMembers(rows[1..], chosen);
      assert rows == [rows[0]] + rows[1..];
    }
  }

  lemma {:induction false} MapMembers<S, T>(rows: seq<S>, f: S -> T, y: T)
    requires y in Map(rows, f)
    ensures exists x :: x in rows && f(x) == y
  {
    assert rows == [rows[0]] + rows[1..];
    if y == f(rows[0]) {
      assert rows[0] in rows;
    } else {
      MapMembers(rows[1..], f, y);
      var x :| x in rows[1..] && f(x) == y;
      assert x in rows;
    }
  }

  lemma MovedAuthors(t: Tables, del: DeleteReq)
    requires AuthorsKnown(t) && !Refused(t, del)
    ensures forall d :: d in Moved(t, del) && d.post.userId != 0 ==> d.post.userName in t.numposts
  {
    SelectedMembers(t.recent, Doomed(del));
    forall d | d in Moved(t, del) && d.post.userId != 0 ensures d.post.userName in t.numposts {
      MapMembers(Select(t.recent, Doomed(del)), ToDeleted(del, !(del.filter.bid != 0 && t.boards[del.filter.bid])), d);
    }
  }

  /** So no command ever adjusts a counter that does not exist. */
  lemma AuthorsStayKnown(t: Tables, c: Command)
    requires AuthorsKnown(t)
    ensures AuthorsKnown(Do(t, c))
  {
    match c {
      case CmdNew(req) =>
      case CmdDelete(del) =>
        if !Refused(t, del) {
          MovedAuthors(t, del);
          SelectedMembers(t.recent, Doomed(del));
        }
      case CmdUndelete(f) =>
        SelectedMembers(t.deleted, InFilter(f));
        forall p | p in Map(Select(t.deleted, InFilter(f)), Reborn()) && p.userId != 0
          ensures p.userName in t.numposts
        {
          MapMembers(Select(t.deleted, InFilter(f)), Reborn(), p);
        }
    }
  }

  // ----- undoing a deletion

  lemma {:induction false} SelectAll<T>(rows: seq<T>, chosen: T -> bool)
    ensures (forall x :: x in rows ==> chosen(x)) ==> Select(rows, chosen) == rows && Reject(rows, chosen) == []
    ensures (forall x :: x in rows ==> !chosen(x)) ==> Select(rows, chosen) == [] && Reject(rows, chosen) == rows
  {
    if rows != [] {
      SelectAll(rows[1..], chosen);
      assert rows == [rows[0]] + rows[1..];
    }
  }

  lemma {:induction false} SelectAppend<T>(a: seq<T>, b: seq<T>, chosen: T -> bool)
    ensures Select(a + b, chosen) == Select(a, chosen) + Select(b, chosen)
  {
    if a == [] {
      assert a + b == b;
    } else {
      assert (a + b)[0] == a[0] && (a + b)[1..] == a[1..] + b;
      SelectAppend(a[1..], b, chosen);
    }
  }

  lemma {:induction false} RejectAppend<T>(a: seq<T>, b: seq<T>, chosen: T -> bool)
    ensures Reject(a + b, chosen) == Reject(a, chosen) + Reject(b, chosen)
  {
    if a == [] {
      assert a + b == b;
    } else {
      assert (a + b)[0] == a[0] && (a + b)[1..] == a[1..] + b;
      RejectAppend(a[1..], b, chosen);
    }
  }

  /** Coming back from the deleted table restores the very rows: only rows that are not sticky leave. */
  lemma {:induction false} RebornIsSame(rows: seq<Post>, req: DeleteReq, decrease: bool)
    ensures Map(Map(Select(rows, Doomed(req)), ToDeleted(req, decrease)), Reborn()) == Select(rows, Doomed(req))
  {
    if rows != [] {
      RebornIsSame(rows[1..], req, decrease);
      if Doomed(req)(rows[0]) {
        var d := Map(Select(rows, Doomed(req)), ToDeleted(req, decrease));
        assert d[1..] == Map(Select(rows[1..], Doomed(req)), ToDeleted(req, decrease));
      }
    }
  }

  /** Undeleting exactly what a deletion moved puts every row back as it was and every counter back
      where it was; only the order of the rows may change. */
  lemma UndeleteUndoesDelete(t: Tables, del: DeleteReq, f: Filter)
    requires !Refused(t, del)
    requires forall d :: d in t.deleted ==> !InFilter(f)(d)
    requires forall d :: d in Moved(t, del) ==> InFilter(f)(d)
    ensures var t' := Undelete(Delete(t, del), f);
            && t'.deleted == t.deleted
            && t'.numposts == t.numposts
            && t'.recent == Reject(t.recent, Doomed(del)) + Select(t.recent, Doomed(del))
  {
    var moved := Moved(t, del);
    SelectAll(t.deleted, InFilter(f));
    SelectAll(moved, InFilter(f));
    SelectAppend(t.deleted, moved, InFilter(f));
    RejectAppend(t.deleted, moved, InFilter(f));
    assert Select(t.deleted + moved, InFilter(f)) == moved && Reject(t.deleted + moved, InFilter(f)) == t.deleted;
    RebornIsSame(t.recent, del, !(del.filter.bid != 0 && t.boards[del.filter.bid]));
    DownAndUp(t.numposts, moved);
  }

  lemma DownAndUp(numposts: map<string, u32>, rows: seq<Deleted>)
    ensures AdjustAll(AdjustAll(numposts, rows, false), rows, true) == numposts
  {
    forall u | u in numposts
      ensures Step(Step(numposts[u], false, Counting(rows, u)), true, Counting(rows, u)) == numposts[u]
    {
      StepBack(numposts[u], Counting(rows, u));
    }
  }

  lemma StepBack(n: u32, k: nat)
    ensures Step(Step(n, false, k), true, k) == n
  {
    var m: int := n;
    ToU32Add(m - k, k);
  }
}

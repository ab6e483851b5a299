/** The backend of backend/post.c at work: rows move in one statement, counters are adjusted row by
    row. Proved against PostTables. */
module PostStore {
  import opened MachineInts
  import opened PostTables
  import opened PostConservation

  class Store {
    var recent: seq<Post>
    var deleted: seq<Deleted>
    var numposts: map<string, u32>
    var boards: map<int, bool>
    var invalid: map<int, int>
    var nextId: int

    ghost function State(): Tables
      reads this
    {
      Tables(recent, deleted, numposts, boards, invalid, nextId)
    }

    /** `post_record_invalidity_change` */
    method InvalidityChange(bid: int, delta: int)
      modifies this`invalid
      ensures invalid == ChangedBy(old(invalid), bid, delta)
      ensures bid <= 0 ==> invalid == old(invalid)
      ensures bid > 0 ==>
                bid in invalid && invalid[bid] == (if bid in old(invalid) then old(invalid)[bid] else 0) + delta
      ensures forall b :: b != bid ==> (b in invalid <==> b in old(invalid))
      ensures forall b :: b != bid && b in invalid ==> invalid[b] == old(invalid)[b]
    {
      if bid > 0 {
        invalid := invalid[bid := (if bid in invalid then invalid[bid] else 0) + delta];
      }
    }

    method AdjustUserPostCount(name: string, delta: int)
      requires name in numposts
      modifies this`numposts
      ensures numposts == Adjust(old(numposts), name, delta)
    {
      var n: int := numposts[name];
      numposts := numposts[name := ToU32(n + delta)];
    }

    /** `post_new` */
    method PostNew(req: NewReq) returns (id: int)
      requires KnownAuthor(State(), req)
      modifies this
      ensures State() == New(old(State()), req) && id == old(nextId)
    {
      id := nextId;
      var shown := if req.hideUserId || req.anonymous then 0 else req.userId;
      var thread := if req.threadId == 0 then id else req.threadId;
      var row := Post(id, thread, shown, req.userName, req.boardId, false, req.marked, false, false, req.title);
      recent := recent + [row];
      nextId := nextId + 1;
      InvalidityChange(req.boardId, 1);
      if req.boardId in boards {
        if !(boards[req.boardId] || req.hideUserId || req.anonymous) {
          AdjustUserPostCount(req.userName, 1);
        }
      }
    }

    /** `_backend_post_delete` */
    method PostDelete(req: DeleteReq) returns (rows: nat)
      requires AuthorsKnown(State())
      modifies this
      ensures State() == Delete(old(State()), req)
      ensures rows == if Refused(old(State()), req) then 0 else |Moved(old(State()), req)|
      ensures rows == |deleted| - |old(deleted)|
    {
      if req.filter.bid != 0 && req.filter.bid !in boards {
        return 0;
      }
      var decrease := !(req.filter.bid != 0 && boards[req.filter.bid]);
      var moved := Map(Select(recent, Doomed(req)), ToDeleted(req, decrease));
      MovedAuthors(State(), req);
      recent := Reject(recent, Doomed(req));
      deleted := deleted + moved;
      rows := |moved|;
      ghost var before := numposts;
      NoneAdjusted(before, false);
      for i := 0 to rows
        modifies this`numposts
        invariant numposts == AdjustAll(before, moved[..i], false)
      {
        AdjustMore(before, moved, i);
        if moved[i].post.userId != 0 && moved[i].junk {
          AdjustUserPostCount(moved[i].post.userName, -1);
        }
      }
      assert moved[..rows] == moved;
      if rows > 0 {
        InvalidityChange(req.filter.bid, 1);
      }
    }

    /** `_backend_post_undelete`: the counters are adjusted first, last row first. */
    method PostUndelete(f: Filter) returns (rows: nat)
      requires AuthorsKnown(State())
      modifies this
      ensures State() == Undelete(old(State()), f)
      ensures rows == |Select(old(deleted), InFilter(f))| == |recent| - |old(recent)|
    {
      var back := Select(deleted, InFilter(f));
      SelectedMembers(deleted, InFilter(f));
      ghost var before := numposts;
      NoneAdjusted(before, true);
      var i := |back|;
      assert back[|back|..] == [];
      while i > 0
        modifies this`numposts
        invariant 0 <= i <= |back| && numposts == AdjustAll(before, back[i..], true)
      {
        i := i - 1;
        AdjustLess(before, back, i);
        if back[i].post.userId != 0 && back[i].junk {
          AdjustUserPostCount(back[i].post.userName, 1);
        }
      }
      assert back[0..] == back;
      deleted := Reject(deleted, InFilter(f));
      recent := recent + Map(back, Reborn());
      rows := |back|;
      if rows > 0 {
        InvalidityChange(f.bid, 1);
      }
    }
  }

  /** One more row adjusted, from the front. */
  lemma AdjustMore(before: map<string, u32>, rows: seq<Deleted>, i: nat)
    requires i < |rows| && (Counts(rows[i]) ==> rows[i].post.userName in before)
    ensures AdjustAll(before, rows[..i + 1], false) ==
              if Counts(rows[i])
              then Adjust(AdjustAll(before, rows[..i], false), rows[i].post.userName, -1)
              else AdjustAll(before, rows[..i], false)
  {
    forall u | u in before ensures Counting(rows[..i + 1], u) == Counting(rows[..i], u) + CountsFor(rows[i], u) {
      CountingNext(rows, i, u);
    }
    OneAdjusted(before, rows[..i], rows[i], rows[..i + 1], false);
  }

  lemma CountingNext(rows: seq<Deleted>, i: nat, u: string)
    requires i < |rows|
    ensures Counting(rows[..i + 1], u) == Counting(rows[..i], u) + CountsFor(rows[i], u)
  {
    assert rows[..i + 1] == rows[..i] + [rows[i]];
    CountingAppend(rows[..i], [rows[i]], u);
    CountingOne(rows[i], u);
  }

  lemma NoneAdjusted(before: map<string, u32>, up: bool)
    ensures AdjustAll(before, [], up) == before
  {
    assert AdjustAll(before, [], up).Keys == before.Keys;
  }

  /** One more row adjusted, from the back. */
  lemma AdjustLess(before: map<string, u32>, rows: seq<Deleted>, i: nat)
    requires i < |rows| && (Counts(rows[i]) ==> rows[i].post.userName in before)
    ensures AdjustAll(before, rows[i..], true) ==
              if Counts(rows[i])
              then Adjust(AdjustAll(before, rows[i + 1..], true), rows[i].post.userName, 1)
              else AdjustAll(before, rows[i + 1..], true)
  {
    assert rows[i..][1..] == rows[i + 1..];
    OneAdjusted(before, rows[i + 1..], rows[i], rows[i..], true);
  }

  lemma CountingOne(d: Deleted, u: string)
    ensures Counting([d], u) == CountsFor(d, u)
  {
    assert [d][1..] == [];
  }

  lemma OneAdjusted(before: map<string, u32>, rows: seq<Deleted>, d: Deleted, more: seq<Deleted>, up: bool)
    requires Counts(d) ==> d.post.userName in before
    requires forall u :: u in before ==> Counting(more, u) == Counting(rows, u) + CountsFor(d, u)
    ensures AdjustAll(before, more, up) ==
              if Counts(d)
              then Adjust(AdjustAll(before, rows, up), d.post.userName, if up then 1 else -1)
              else AdjustAll(before, rows, up)
  {
    forall u | u in before ensures AdjustAll(before, more, up)[u] == OneMore(before, rows, d, up, u) {
      StepMore(before[u], up, Counting(rows, u));
    }
    if Counts(d) {
      Adjusted(before, rows, d, more, up);
    } else {
      assert AdjustAll(before, more, up) == AdjustAll(before, rows, up);
    }
  }

  /** The counter of `u` after the adjustments for `rows` and for `d`. */
  function OneMore(before: map<string, u32>, rows: seq<Deleted>, d: Deleted, up: bool, u: string): u32
    requires u in before
  {
    var n := Step(before[u], up, Counting(rows, u));
    if CountsFor(d, u) == 1 then ToU32(n + if up then 1 else -1) else n
  }

  lemma Adjusted(before: map<string, u32>, rows: seq<Deleted>, d: Deleted, more: seq<Deleted>, up: bool)
    requires Counts(d) && d.post.userName in before
    requires forall u :: u in before ==> AdjustAll(before, more, up)[u] == OneMore(before, rows, d, up, u)
    ensures AdjustAll(before, more, up) == Adjust(AdjustAll(before, rows, up), d.post.userName, if up then 1 else -1)
  {
    var after := Adjust(AdjustAll(before, rows, up), d.post.userName, if up then 1 else -1);
    assert AdjustAll(before, more, up).Keys == before.Keys == after.Keys;
    forall u | u in before ensures AdjustAll(before, more, up)[u] == after[u] {
      assert CountsFor(d, u) == 1 <==> u == d.post.userName;
    }
  }

  lemma StepMore(n: u32, up: bool, k: nat)
    ensures Step(n, up, k + 1) == ToU32(Step(n, up, k) + if up then 1 else -1)
  {
    var m: int := n;
    ToU32Add(if up then m + k else m - k, if up then 1 else -1);
  }
}

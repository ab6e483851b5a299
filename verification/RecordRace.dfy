/** Several refreshers of a record file at once (lib/post.c): what the counter is worth after a payment, and
    how a change gets lost. */
module RecordRace {
  import opened Records
  import opened RecordRefresh

  // ----- the account of the counter

  /** How often the run raises the counter. */
  function Announced(s: Sys, es: seq<Event>): nat
    decreases |es|
  {
    if es == [] then 0
    else (if es[0].Announce? && s.pending > 0 then 1 else 0) + Announced(Step(s, es[0]), es[1..])
  }

  /** How much the run takes from it. */
  function Paid(s: Sys, es: seq<Event>): int
    decreases |es|
  {
    if es == [] then 0
    else (if Pays(s, es[0]) then s.phases[es[0].p].k else 0) + Paid(Step(s, es[0]), es[1..])
  }

  lemma {:induction false} CounterAccount(s: Sys, es: seq<Event>)
    ensures Run(s, es).counter == s.counter + Announced(s, es) - Paid(s, es)
    decreases |es|
  {
    if es != [] {
      CounterAccount(Step(s, es[0]), es[1..]);
    }
  }

  /** In every run, whatever the others do: once a refresher has paid, the counter is what was announced since
      it read the counter, less what others paid in between. */
  lemma PaidBalance(s: Sys, p: nat, es: seq<Event>)
    requires p !in s.phases && s.counter != 0
    requires var t := Run(Step(s, Start(p, false)), es);
             p in t.phases && t.phases[p].HasCut? && t.phases[p].k == s.counter
    ensures var s1 := Step(s, Start(p, false));
            var after := Step(Run(s1, es), Pay(p)).counter;
            after == Announced(s1, es) - Paid(s1, es)
  {
    CounterAccount(Step(s, Start(p, false)), es);
  }

  /** A payment of `q` while `p` waits, both of positive counts, leaves the counter short by what `q` paid
      unless others pay too. */
  lemma CrossedIsShort(s: Sys, p: nat, q: nat, before: seq<Event>, between: seq<Event>)
    requires p !in s.phases && s.counter > 0
    requires var t := Run(Step(s, Start(p, false)), before);
             q in t.phases && t.phases[q].HasCut? && t.phases[q].k > 0
    requires var es := before + [Pay(q)] + between;
             var t := Run(Step(s, Start(p, false)), es);
             p in t.phases && t.phases[p].HasCut? && t.phases[p].k == s.counter
    ensures var s1 := Step(s, Start(p, false)); var t := Run(s1, before);
            var es := before + [Pay(q)] + between;
            Step(Run(s1, es), Pay(p)).counter
              == Announced(s1, es) - t.phases[q].k - Paid(s1, before) - Paid(Step(t, Pay(q)), between)
  {
    var s1 := Step(s, Start(p, false));
    var es := before + [Pay(q)] + between;
    PaidBalance(s, p, es);
    PaidAppend(s1, before, [Pay(q)] + between);
    assert before + ([Pay(q)] + between) == es;
    assert ([Pay(q)] + between)[1..] == between;
  }

  lemma {:induction false} PaidAppend(s: Sys, a: seq<Event>, b: seq<Event>)
    ensures Run(s, a + b) == Run(Run(s, a), b)
    ensures Paid(s, a + b) == Paid(s, a) + Paid(Run(s, a), b)
    decreases |a|
  {
    if a == [] {
      assert a + b == b;
    } else {
      assert (a + b)[0] == a[0] && (a + b)[1..] == a[1..] + b;
      PaidAppend(Step(s, a[0]), a[1..], b);
    }
  }

  // ----- the guard is exact

  lemma RunTwo(s: Sys, e: Event, es: seq<Event>)
    ensures Run(s, [e] + es) == Run(Step(s, e), es)
    ensures Guarded(s, [e] + es)
      <==> (Takes(s, e) ==> s.phases[e.p].k <= s.counter + s.pending) && Guarded(Step(s, e), es)
  {
    assert ([e] + es)[1..] == es;
  }

  lemma RunEight(s: Sys, a: Event, b: Event, c: Event, d: Event, e: Event, f: Event, g: Event, h: Event)
    ensures Run(s, [a, b, c, d, e, f, g, h])
         == Step(Step(Step(Step(Step(Step(Step(Step(s, a), b), c), d), e), f), g), h)
  {
    RunFour(Step(Step(Step(Step(s, a), b), c), d), e, f, g, h);
    RunFour(s, a, b, c, d);
    PaidAppend(s, [a, b, c, d], [e, f, g, h]);
    assert [a, b, c, d] + [e, f, g, h] == [a, b, c, d, e, f, g, h];
  }

  lemma RunThree(s: Sys, a: Event, b: Event, c: Event)
    ensures Run(s, [a, b, c]) == Step(Step(Step(s, a), b), c)
  {
    RunTwo(s, a, [b, c]);
    RunTwo(Step(s, a), b, [c]);
    RunTwo(Step(Step(s, a), b), c, []);
    assert [a] + [b, c] == [a, b, c] && [b] + [c] == [b, c] && [c] + [] == [c];
  }

  lemma RunFour(s: Sys, a: Event, b: Event, c: Event, d: Event)
    ensures Run(s, [a, b, c, d]) == Step(Step(Step(Step(s, a), b), c), d)
  {
    RunTwo(s, a, [b, c, d]);
    RunTwo(Step(s, a), b, [c, d]);
    RunTwo(Step(Step(s, a), b), c, [d]);
    RunTwo(Step(Step(Step(s, a), b), c), d, []);
    assert [a] + [b, c, d] == [a, b, c, d] && [b] + [c, d] == [b, c, d] && [c] + [d] == [c, d] && [d] + [] == [d];
  }

  /** No event tries to take the lock. */
  predicate TakesNothing(es: seq<Event>) {
    forall i :: 0 <= i < |es| ==> !es[i].TryLock?
  }

  /** Then neither guard has anything to say. */
  lemma {:induction false} NothingTaken(s: Sys, es: seq<Event>)
    requires TakesNothing(es)
    ensures Guarded(s, es) && Covered(s, es)
    decreases |es|
  {
    if es != [] {
      NothingTaken(Step(s, es[0]), es[1..]);
    }
  }

  /** The holder of the lock rebuilds the file. */
  lemma Rebuilds(s: Sys, p: nat)
    requires p in s.phases && s.phases[p].HasLocked? && s.file.Some?
    ensures Step(Step(Step(s, Query(p)), Write(p)), Cut(p))
         == s.(file := Some(Sort(s.rows)), phases := s.phases[p := HasCut(s.phases[p].k, s.rows)])
  {
    var k, t := s.phases[p].k, Step(s, Query(p));
    SortLength(s.rows);
    assert Overwritten(s.file.value, Sort(s.rows))[..|s.rows|] == Sort(s.rows);
    assert t.phases[p := HasWritten(k, s.rows)][p := HasCut(k, s.rows)] == s.phases[p := HasCut(k, s.rows)];
  }

  lemma HolderPays(s: Sys, p: nat) returns (es: seq<Event>)
    requires p in s.phases && s.phases[p].HasLocked? && s.file.Some?
    ensures Covered(s, es) && Run(s, es).counter == s.counter - s.phases[p].k
  {
    es := [Query(p), Write(p), Cut(p), Pay(p)];
    Rebuilds(s, p);
    RunFour(s, Query(p), Write(p), Cut(p), Pay(p));
    NothingTaken(s, es);
  }

  /** The counter: after a run in which every refresher that took the lock found counted what it had read, the
      next one may take it exactly if it finds that too. Otherwise the counter can become negative. */
  lemma NegativeIff(rows: seq<Record>, es: seq<Event>, p: nat)
    requires Covered(Init(rows), es) && Takes(Run(Init(rows), es), TryLock(p))
    ensures var s := Run(Init(rows), es); var t := Step(s, TryLock(p));
            (forall more :: Covered(t, more) ==> Run(t, more).counter >= 0) <==> s.phases[p].k <= s.counter
  {
    var s := Run(Init(rows), es);
    var t := Step(s, TryLock(p));
    CoveredKeeps(Init(rows), es);
    if s.phases[p].k <= s.counter {
      StepKeeps(s, TryLock(p));
      StepSolvent(s, TryLock(p));
      forall more | Covered(t, more) ensures Run(t, more).counter >= 0 {
        CoveredKeeps(t, more);
      }
    } else {
      assert WaiterOk(s, s.phases[p]);
      var more := HolderPays(t, p);
      assert Covered(t, more) && Run(t, more).counter < 0;
    }
  }

  /** The file: after a run in which every refresher that took the lock found what it had read counted or about
      to be, the next one may take it exactly if it finds that too. Then no change is lost in any such
      continuation, although the counter may be negative meanwhile; otherwise one can be. */
  lemma GuardIff(rows: seq<Record>, es: seq<Event>, p: nat)
    requires Guarded(Init(rows), es) && Takes(Run(Init(rows), es), TryLock(p))
    ensures var s := Run(Init(rows), es); var t := Step(s, TryLock(p));
            (forall more :: Guarded(t, more) ==> Trustworthy(Run(t, more)))
            <==> s.phases[p].k <= s.counter + s.pending
  {
    var s := Run(Init(rows), es);
    var t := Step(s, TryLock(p));
    RunKeeps(Init(rows), es);
    assert WaiterOk(s, s.phases[p]);
    if s.phases[p].k <= s.counter + s.pending {
      StepKeeps(s, TryLock(p));
      forall more | Guarded(t, more) ensures Trustworthy(Run(t, more)) {
        RunKeeps(t, more);
        InvIsTrustworthy(Run(t, more));
      }
    } else {
      var more := TakingTooLateLoses(s, p, Record(0, ""));
      assert Guarded(t, more) && !Trustworthy(Run(t, more));
    }
  }

  // ----- a change that gets lost

  lemma {:induction false} CommitMany(s: Sys, rows: seq<Record>, n: nat)
    requires n > 0
    ensures Run(s, seq(n, i => Commit(rows))) == s.(rows := rows, pending := s.pending + n)
    decreases n
  {
    var es := seq(n, i => Commit(rows));
    assert es[1..] == seq(n - 1, i => Commit(rows));
    if n > 1 {
      CommitMany(Step(s, Commit(rows)), rows, n - 1);
    }
  }

  lemma {:induction false} AnnounceMany(s: Sys, n: nat)
    requires n <= s.pending
    ensures Run(s, seq(n, i => Announce)) == s.(pending := s.pending - n, counter := s.counter + n)
    decreases n
  {
    if n > 0 {
      var es := seq(n, i => Announce);
      assert es[1..] == seq(n - 1, i => Announce);
      AnnounceMany(Step(s, Announce), n - 1);
    }
  }

  lemma {:induction false} GuardedAppend(s: Sys, a: seq<Event>, b: seq<Event>)
    requires Guarded(s, a) && Guarded(Run(s, a), b)
    ensures Guarded(s, a + b)
    decreases |a|
  {
    if a == [] {
      assert a + b == b;
    } else {
      assert (a + b)[0] == a[0] && (a + b)[1..] == a[1..] + b;
      GuardedAppend(Step(s, a[0]), a[1..], b);
    }
  }

  /** Whoever waits while `p` holds the lock finds it taken and leaves. */
  lemma {:induction false} OthersLeave(s: Sys, p: nat) returns (es: seq<Event>)
    requires s.lock == Some(p) && p in s.phases && s.file.Some?
    requires forall q :: q in s.phases && q != p ==> !Locks(s.phases[q])
    ensures Guarded(s, es) && Run(s, es) == s.(phases := map[p := s.phases[p]])
    decreases |s.phases|
  {
    es := [];
    if q :| q in s.phases && q != p {
      var s1 := Step(s, Open(q));
      var s2 := Step(s1, TryLock(q));
      assert !Locks(s.phases[q]);
      assert s2 == s.(phases := s.phases - {q});
      es := OthersLeave(s2, p);
      RunTwo(s1, TryLock(q), es);
      RunTwo(s, Open(q), [TryLock(q)] + es);
      es := [Open(q)] + ([TryLock(q)] + es);
    } else {
      assert s.phases == map[p := s.phases[p]];
    }
  }

  /** The holder of the lock rebuilds the file, and only then come the changes that its payment hides. */
  lemma HolderHides(s: Sys, p: nat, r: Record) returns (es: seq<Event>)
    requires p in s.phases && s.phases[p].HasLocked? && s.file.Some? && s.phases[p].k > s.counter + s.pending
    ensures TakesNothing(es)
    ensures Run(s, es) == Sys(s.rows + [r], 0, 0, Some(Sort(s.rows)), None, s.phases - {p})
  {
    var k, rows := s.phases[p].k, s.rows + [r];
    var n := k - s.counter - s.pending;
    var s1 := s.(file := Some(Sort(s.rows)), phases := s.phases[p := HasCut(k, s.rows)]);
    var s2 := s1.(rows := rows, pending := s.pending + n);
    var s3 := s2.(pending := 0, counter := k);
    var first, commits, announces := [Query(p), Write(p), Cut(p)], seq(n, i => Commit(rows)),
                                     seq(s.pending + n, i => Announce);
    Rebuilds(s, p);
    RunThree(s, Query(p), Write(p), Cut(p));
    CommitMany(s1, rows, n);
    AnnounceMany(s2, s.pending + n);
    PaidAppend(s, first, commits);
    PaidAppend(s, first + commits, announces);
    es := PayAndUnlock(s, first + commits + announces, s3, p);
    assert s1.phases - {p} == s.phases - {p};
  }

  /** A refresher that takes the lock when less than what it read is counted or about to be, can make the
      counter zero with nothing outstanding and nobody at work while the file lacks a change. */
  lemma TakingTooLateLoses(s: Sys, p: nat, r: Record) returns (es: seq<Event>)
    requires Inv(s) && Takes(s, TryLock(p)) && s.phases[p].k > s.counter + s.pending
    ensures var t := Step(s, TryLock(p)); var u := Run(t, es);
            && Guarded(t, es)
            && u.counter == 0 && u.pending == 0 && u.lock.None? && u.phases == map[]
            && u.file.Some? && u.file.value != Sort(u.rows)
  {
    var t := Step(s, TryLock(p));
    assert WaiterOk(s, s.phases[p]);
    var away := OthersLeave(t, p);
    var u := Run(t, away);
    var hiding := HolderHides(u, p, r);
    NothingTaken(u, hiding);
    GuardedAppend(t, away, hiding);
    PaidAppend(t, away, hiding);
    es := away + hiding;
    SortLength(s.rows);
    SortLength(s.rows + [r]);
    assert u.phases - {p} == map[];
  }

  lemma PayAndUnlock(s: Sys, es: seq<Event>, t: Sys, p: nat) returns (more: seq<Event>)
    requires Run(s, es) == t && p in t.phases && t.phases[p].HasCut?
    requires TakesNothing(es)
    ensures Run(s, more) == t.(counter := t.counter - t.phases[p].k, lock := None, phases := t.phases - {p})
    ensures TakesNothing(more)
  {
    more := es + ([Pay(p)] + ([Unlock(p)] + []));
    PaidAppend(s, es, [Pay(p)] + ([Unlock(p)] + []));
    RunTwo(t, Pay(p), [Unlock(p)] + []);
    RunTwo(Step(t, Pay(p)), Unlock(p), []);
    assert t.phases[p := HasPaid(t.phases[p].k)] - {p} == t.phases - {p};
  }

  /** Two refreshers that read the same count both subtract it. The counter goes negative, the next
      change brings it back to zero, and the file stays out of date with nothing left to say so. */
  lemma TwoRefreshersLoseAChange(a: Record, b: Record) returns (early: seq<Event>, es: seq<Event>)
    requires a != b
    ensures early <= es && Run(Init([]), early).counter < 0
    ensures var s := Run(Init([]), es);
            && s.counter == 0 && s.pending == 0 && s.phases == map[] && s.file.Some?
            && s.file.value != Sort(s.rows)
  {
    SortOne(a);
    SortOne(b);
    es := BothOpen(a);
    es := Refresh(es, 0);
    es := Refresh(es, 1);
    early := es;
    assert Run(Init([]), es) == Sys([a], -1, 0, Some([a]), None, map[]);
    es := Extend(es, Commit([b]));
    es := Extend(es, Announce);
  }

  lemma SortOne(a: Record)
    ensures Sort([a]) == [a]
  {
    assert Front([a]) == [];
  }

  lemma Extend(es: seq<Event>, e: Event) returns (more: seq<Event>)
    ensures more == es + [e] && Run(Init([]), more) == Step(Run(Init([]), es), e)
  {
    more := es + [e];
    RunLast(Init([]), es, e);
  }

  lemma {:induction false} RunLast(s: Sys, es: seq<Event>, e: Event)
    ensures Run(s, es + [e]) == Step(Run(s, es), e)
    decreases |es|
  {
    if es == [] {
      assert [e][1..] == [];
    } else {
      assert (es + [e])[1..] == es[1..] + [e];
      RunLast(Step(s, es[0]), es[1..], e);
    }
  }

  /** One change is counted, and two refreshers read the same count. */
  lemma BothOpen(a: Record) returns (es: seq<Event>)
    ensures Run(Init([]), es) == Sys([a], 1, 0, Some([]), None, map[0 := HasOpened(1), 1 := HasOpened(1)])
  {
    es := Extend([], Commit([a]));
    es := Extend(es, Announce);
    assert Run(Init([]), es) == Sys([a], 1, 0, None, None, map[]);
    es := Extend(es, Start(0, false));
    es := Extend(es, Start(1, false));
    assert Run(Init([]), es) == Sys([a], 1, 0, None, None, map[0 := HasRead(1), 1 := HasRead(1)]);
    es := Extend(es, Open(0));
    es := Extend(es, Open(1));
  }

  /** A refresher that has opened the file and finds it unlocked runs to its end. */
  lemma Refresh(es: seq<Event>, p: nat) returns (more: seq<Event>)
    requires var s := Run(Init([]), es);
             p in s.phases && s.phases[p].HasOpened? && s.lock.None? && s.file.Some?
    ensures es <= more
    ensures var s := Run(Init([]), es);
            Run(Init([]), more) == s.(file := Some(Sort(s.rows)), counter := s.counter - s.phases[p].k,
                                      phases := s.phases - {p})
  {
    var s := Run(Init([]), es);
    var k := s.phases[p].k;
    more := Rebuild(es, p);
    more := Extend(more, Pay(p));
    more := Extend(more, Unlock(p));
    assert s.phases[p := HasPaid(k)] - {p} == s.phases - {p};
  }

  lemma Rebuild(es: seq<Event>, p: nat) returns (more: seq<Event>)
    requires var s := Run(Init([]), es);
             p in s.phases && s.phases[p].HasOpened? && s.lock.None? && s.file.Some?
    ensures es <= more
    ensures var s := Run(Init([]), es);
            Run(Init([]), more) == s.(lock := Some(p), file := Some(Sort(s.rows)),
                                      phases := s.phases[p := HasCut(s.phases[p].k, s.rows)])
  {
    more := Extend(es, TryLock(p));
    Rebuilds(Run(Init([]), more), p);
    more := Extend(more, Query(p));
    more := Extend(more, Write(p));
    more := Extend(more, Cut(p));
  }

  // ----- one call

  /** `post_update_record` as the steps of one refresher. */
  function Call(p: nat, force: bool): seq<Event> {
    [Start(p, force), Open(p), TryLock(p), Query(p), Write(p), Cut(p), Pay(p), Unlock(p)]
  }

  /** A call that nothing interrupts: the file is rebuilt and the count read is paid, unless there is nothing
      to do or the lock is taken. */
  lemma CallIsRun(s: Sys, p: nat, force: bool)
    requires p !in s.phases && force == s.file.None?
    ensures Run(s, Call(p, force)) ==
              if !force && s.counter == 0 then s
              else
                var found := s.(file := if force then Some([]) else s.file);
                if s.lock.Some? then found
                else found.(file := Some(Sort(s.rows)), counter := if force then s.counter else 0)
  {
    RunEight(s, Start(p, force), Open(p), TryLock(p), Query(p), Write(p), Cut(p), Pay(p), Unlock(p));
    if force || s.counter != 0 {
      StartAndOpen(s, p, force);
      OpenedCall(Step(Step(s, Start(p, force)), Open(p)), p);
      assert s.phases[p := HasOpened(if force then 0 else s.counter)] - {p} == s.phases;
    }
  }

  lemma StartAndOpen(s: Sys, p: nat, force: bool)
    requires p !in s.phases && force == s.file.None? && (force || s.counter != 0)
    ensures Step(Step(s, Start(p, force)), Open(p))
         == s.(file := if force then Some([]) else s.file,
               phases := s.phases[p := HasOpened(if force then 0 else s.counter)])
  {
    var k := if force then 0 else s.counter;
    assert s.phases[p := HasRead(k)][p := HasOpened(k)] == s.phases[p := HasOpened(k)];
  }

  lemma OpenedCall(s: Sys, p: nat)
    requires p in s.phases && s.phases[p].HasOpened? && s.file.Some?
    ensures var t := Step(Step(Step(Step(Step(Step(s, TryLock(p)), Query(p)), Write(p)), Cut(p)), Pay(p)), Unlock(p));
            t == if s.lock.Some? then s.(phases := s.phases - {p})
                 else s.(file := Some(Sort(s.rows)), counter := s.counter - s.phases[p].k, phases := s.phases - {p})
  {
    if s.lock.None? {
      var t := Step(s, TryLock(p));
      Rebuilds(t, p);
      assert t.phases - {p} == s.phases - {p};
    }
  }
}

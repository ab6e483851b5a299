/** The record file of a board and its invalidity counter (lib/post.c, backend/post.c) as a state
    machine. Backends commit a change and afterwards count the file as invalid once more; refreshers
    read the counter, rebuild the file from the table and subtract what they read. Every line of the
    program that other processes can observe is a step. */
module RecordRefresh {
  import opened Records

  datatype Option<T> = None | Some(value: T)

  /** How far a refresher (a run of `post_update_record`) has come; `k` is the count it read, 0 when the
      refresh is forced because the file is missing. */
  datatype Phase =
    | HasRead(k: int)
    | HasOpened(k: int)
    | HasLocked(k: int)
    | HasRows(k: int, rows: seq<Record>)
    | HasWritten(k: int, rows: seq<Record>)
    | HasCut(k: int, rows: seq<Record>)
    | HasPaid(k: int)

  /** `rows` are the board's posts in the table, `pending` the commits not counted yet. */
  datatype Sys = Sys(rows: seq<Record>, counter: int, pending: nat, file: Option<seq<Record>>,
                     lock: Option<nat>, phases: map<nat, Phase>)

  datatype Event =
    | Commit(rows: seq<Record>)
    | Announce
    | Start(p: nat, force: bool)
    | Open(p: nat)
    | TryLock(p: nat)
    | Query(p: nat)
    | Write(p: nat)
    | Cut(p: nat)
    | Pay(p: nat)
    | Unlock(p: nat)

  /** What `record_write` at the front leaves before `record_truncate` cuts it. */
  function Overwritten(file: seq<Record>, recs: seq<Record>): seq<Record> {
    recs + if |recs| < |file| then file[|recs|..] else []
  }

  function Step(s: Sys, e: Event): Sys {
    match e
    case Commit(rows) => s.(rows := rows, pending := s.pending + 1)
    case Announce => if s.pending > 0 then s.(pending := s.pending - 1, counter := s.counter + 1) else s
    case Start(p, force) =>
      if p in s.phases then s
      else if force && s.file.None? then s.(phases := s.phases[p := HasRead(0)])
      else if s.counter != 0 then s.(phases := s.phases[p := HasRead(s.counter)])
      else s
    case _ => if e.p in s.phases then Progress(s, e, s.phases[e.p]) else s
  }

  function Progress(s: Sys, e: Event, ph: Phase): Sys
    requires !e.Commit? && !e.Announce? && !e.Start?
  {
    match ph
    case HasRead(k) =>
      if !e.Open? then s
      else s.(file := if s.file.None? then Some([]) else s.file, phases := s.phases[e.p := HasOpened(k)])
    case HasOpened(k) =>
      if !e.TryLock? then s
      else if s.lock.None? then s.(lock := Some(e.p), phases := s.phases[e.p := HasLocked(k)])
      else s.(phases := s.phases - {e.p})
    case HasLocked(k) =>
      if e.Query? then s.(phases := s.phases[e.p := HasRows(k, s.rows)]) else s
    case HasRows(k, rows) =>
      if e.Write? then
        s.(file := Some(Overwritten(if s.file.Some? then s.file.value else [], Sort(rows))),
           phases := s.phases[e.p := HasWritten(k, rows)])
      else s
    case HasWritten(k, rows) =>
      if e.Cut? then
        s.(file := if s.file.Some? && |rows| <= |s.file.value| then Some(s.file.value[..|rows|]) else s.file,
           phases := s.phases[e.p := HasCut(k, rows)])
      else s
    case HasCut(k, rows) =>
      if e.Pay? then s.(counter := s.counter - k, phases := s.phases[e.p := HasPaid(k)]) else s
    case HasPaid(k) =>
      if e.Unlock? then s.(lock := None, phases := s.phases - {e.p}) else s
  }

  function Run(s: Sys, es: seq<Event>): Sys
    decreases |es|
  {
    if es == [] then s else Run(Step(s, es[0]), es[1..])
  }

  function Init(rows: seq<Record>): Sys {
    Sys(rows, 0, 0, None, None, map[])
  }

  /** The lock is free and `p` takes it. */
  predicate Takes(s: Sys, e: Event) {
    e.TryLock? && e.p in s.phases && s.phases[e.p].HasOpened? && s.lock.None?
  }

  /** Whoever takes the lock finds that what it read is still counted, or committed and about to be. */
  ghost predicate Guarded(s: Sys, es: seq<Event>)
    decreases |es|
  {
    es == []
    || ((Takes(s, es[0]) ==> s.phases[es[0].p].k <= s.counter + s.pending) && Guarded(Step(s, es[0]), es[1..]))
  }

  // ----- the invariant

  ghost predicate Locks(ph: Phase) {
    !ph.HasRead? && !ph.HasOpened?
  }

  /** Between reading the counter and taking the lock; the file is there once it has been opened. */
  ghost predicate WaiterOk(s: Sys, ph: Phase) {
    (ph.HasOpened? ==> s.file.Some?) && (s.file.None? ==> 0 <= ph.k <= s.counter + s.pending)
  }

  /** The refresher with the lock that read `k` owes the counter `k`; whatever the file is missing is counted
      beyond that, or about to be. */
  ghost predicate HolderOk(s: Sys, ph: Phase) {
    && s.file.Some?
    && match ph
       case HasRows(k, rows) => Owes(s, k) && (s.counter + s.pending == k ==> rows == s.rows)
       case HasWritten(k, rows) =>
         && Owes(s, k) && (s.counter + s.pending == k ==> rows == s.rows)
         && |rows| <= |s.file.value| && s.file.value[..|rows|] == Sort(rows)
       case HasCut(k, rows) =>
         Owes(s, k) && s.file == Some(Sort(rows)) && (s.counter + s.pending == k ==> rows == s.rows)
       case HasPaid(k) => Current(s)
       case _ => Owes(s, ph.k)
  }

  ghost predicate Owes(s: Sys, k: int) {
    k <= s.counter + s.pending
  }

  ghost predicate Current(s: Sys) {
    s.counter + s.pending == 0 && s.file.Some? ==> s.file.value == Sort(s.rows)
  }

  /** Someone is about to build a file that was missing. */
  ghost predicate FirstBuild(s: Sys) {
    exists p :: p in s.phases && !Locks(s.phases[p]) && s.phases[p].k == 0
  }

  ghost predicate Inv(s: Sys) {
    && s.counter + s.pending >= 0 && (s.file.None? ==> s.counter >= 0)
    && (forall p :: p in s.phases && Locks(s.phases[p]) ==> s.lock == Some(p) && HolderOk(s, s.phases[p]))
    && (forall p :: p in s.phases && !Locks(s.phases[p]) ==> WaiterOk(s, s.phases[p]))
    && (s.lock.Some? ==> s.lock.value in s.phases && Locks(s.phases[s.lock.value]))
    && (s.lock.None? ==> Current(s) || FirstBuild(s))
  }

  lemma SortLength(rows: seq<Record>)
    ensures |Sort(rows)| == |rows|
  {
    SortFacts(rows);
    assert |Sort(rows)| == |multiset(Sort(rows))| == |multiset(rows)| == |rows|;
  }

  /** The step of a refresher without the lock. */
  lemma WaiterKeeps(s: Sys, e: Event)
    requires Inv(s) && (e.Open? || e.TryLock?) && e.p in s.phases
    requires Takes(s, e) ==> s.phases[e.p].k <= s.counter + s.pending
    ensures Inv(Step(s, e))
  {
    var ph, s' := s.phases[e.p], Step(s, e);
    assert if Locks(ph) then HolderOk(s, ph) else WaiterOk(s, ph);
    forall p | p in s'.phases && p != e.p ensures p in s.phases && s'.phases[p] == s.phases[p] {
    }
    if s.lock.None? && FirstBuild(s) {
      var q :| q in s.phases && !Locks(s.phases[q]) && s.phases[q].k == 0;
      assert q in s'.phases && s'.phases[q].k == 0;
    }
    if e.Open? && ph.HasRead? && ph.k == 0 {
      assert e.p in s'.phases && s'.phases[e.p] == HasOpened(0);
    }
  }

  /** The step of the refresher with the lock. */
  lemma HolderKeeps(s: Sys, e: Event)
    requires Inv(s) && !e.Commit? && !e.Announce? && !e.Start? && !e.Open? && !e.TryLock? && e.p in s.phases
    ensures Inv(Step(s, e))
  {
    var ph, s' := s.phases[e.p], Step(s, e);
    if s' != s {
      assert Locks(ph) && HolderOk(s, ph);
      if ph.HasRows? || ph.HasWritten? {
        SortLength(ph.rows);
      }
      forall p | p in s'.phases && p != e.p
        ensures p in s.phases && s'.phases[p] == s.phases[p] && !Locks(s.phases[p])
      {
      }
    }
  }

  lemma OthersKeep(s: Sys, e: Event)
    requires Inv(s) && (e.Commit? || e.Announce? || e.Start?)
    ensures Inv(Step(s, e))
  {
    var s' := Step(s, e);
    forall p | p in s.phases ensures p in s'.phases && s'.phases[p] == s.phases[p] {
    }
    if s.lock.None? && FirstBuild(s) {
      var q :| q in s.phases && !Locks(s.phases[q]) && s.phases[q].k == 0;
      assert q in s'.phases && s'.phases[q].k == 0;
    }
  }

  lemma StepKeeps(s: Sys, e: Event)
    requires Inv(s) && (Takes(s, e) ==> s.phases[e.p].k <= s.counter + s.pending)
    ensures Inv(Step(s, e))
  {
    if e.Commit? || e.Announce? || e.Start? {
      OthersKeep(s, e);
    } else if e.p in s.phases {
      if e.Open? || e.TryLock? {
        WaiterKeeps(s, e);
      } else {
        HolderKeeps(s, e);
      }
    }
  }

  lemma {:induction false} RunKeeps(s: Sys, es: seq<Event>)
    requires Inv(s) && Guarded(s, es)
    ensures Inv(Run(s, es))
    decreases |es|
  {
    if es != [] {
      StepKeeps(s, es[0]);
      RunKeeps(Step(s, es[0]), es[1..]);
    }
  }

  /** The file is up to date whenever the counter says so and no refresher is under way that read no count. */
  ghost predicate Trustworthy(s: Sys) {
    && s.counter + s.pending >= 0
    && (s.counter == 0 && s.pending == 0 && s.file.Some?
        && (forall p :: p in s.phases ==> s.phases[p].k > 0 || s.phases[p].HasPaid?)
        ==> s.file.value == Sort(s.rows))
  }

  lemma InvIsTrustworthy(s: Sys)
    requires Inv(s)
    ensures Trustworthy(s)
  {
    if s.lock.Some? {
      assert HolderOk(s, s.phases[s.lock.value]);
    }
  }

  /** Over every run of any number of refreshers, as long as whoever takes the lock finds what it read still
      counted or about to be: when the counter is zero with no increment outstanding and no refresher
      under way that read no count, the file holds exactly the table's posts in order. */
  lemma ZeroMeansCurrent(rows: seq<Record>, es: seq<Event>)
    requires Guarded(Init(rows), es)
    ensures Trustworthy(Run(Init(rows), es))
  {
    RunKeeps(Init(rows), es);
    InvIsTrustworthy(Run(Init(rows), es));
  }

  // ----- the counter itself

  /** Whoever takes the lock still finds counted what it read before. */
  ghost predicate Covered(s: Sys, es: seq<Event>)
    decreases |es|
  {
    es == [] || ((Takes(s, es[0]) ==> s.phases[es[0].p].k <= s.counter) && Covered(Step(s, es[0]), es[1..]))
  }

  /** The counter pays for the refresher with the lock. */
  ghost predicate Solvent(s: Sys) {
    && s.counter >= 0
    && forall p :: p in s.phases && Locks(s.phases[p]) && !s.phases[p].HasPaid? ==> s.phases[p].k <= s.counter
  }

  lemma StepSolvent(s: Sys, e: Event)
    requires Inv(s) && Solvent(s) && (Takes(s, e) ==> s.phases[e.p].k <= s.counter)
    ensures Solvent(Step(s, e))
  {
    var s' := Step(s, e);
    forall p | p in s'.phases && Locks(s'.phases[p]) && !s'.phases[p].HasPaid?
      ensures s'.phases[p].k <= s'.counter
    {
      assert p in s.phases && s'.phases[p].k == s.phases[p].k;
      if e.Pay? && e.p in s.phases && s.phases[e.p].HasCut? {
        assert s.lock == Some(e.p);
      }
    }
  }

  /** With that stronger guard the counter is never negative. */
  lemma {:induction false} CoveredKeeps(s: Sys, es: seq<Event>)
    requires Inv(s) && Solvent(s) && Covered(s, es)
    ensures Guarded(s, es) && Inv(Run(s, es)) && Solvent(Run(s, es))
    decreases |es|
  {
    if es != [] {
      StepKeeps(s, es[0]);
      StepSolvent(s, es[0]);
      CoveredKeeps(Step(s, es[0]), es[1..]);
    }
  }

  // ----- no payment between reading the counter and taking the lock

  function Waiting(s: Sys): set<nat> {
    set p | p in s.phases && (s.phases[p].HasRead? || s.phases[p].HasOpened?)
  }

  /** The event subtracts something from the counter. */
  predicate Pays(s: Sys, e: Event) {
    e.Pay? && e.p in s.phases && s.phases[e.p].HasCut? && s.phases[e.p].k != 0
  }

  /** The refreshers that waited for the lock while another one paid. */
  function Crossed(s: Sys, e: Event, crossed: set<nat>): set<nat> {
    (if Pays(s, e) then crossed + Waiting(s) else crossed) * Step(s, e).phases.Keys
  }

  /** No payment falls between the moment a refresher reads a count and the moment it takes the lock;
      `crossed` are those for whom it is too late. Those that find the lock taken do not matter. */
  ghost predicate Uncrossed(s: Sys, es: seq<Event>, crossed: set<nat>)
    decreases |es|
  {
    es == []
    || ((Takes(s, es[0]) && s.phases[es[0].p].k != 0 ==> es[0].p !in crossed)
        && Uncrossed(Step(s, es[0]), es[1..], Crossed(s, es[0], crossed)))
  }

  ghost predicate StillCounted(s: Sys, crossed: set<nat>) {
    forall p :: p in Waiting(s) && p !in crossed ==> s.phases[p].k <= s.counter
  }

  lemma StillCountedKeeps(s: Sys, e: Event, crossed: set<nat>)
    requires Inv(s) && Solvent(s) && StillCounted(s, crossed)
    ensures StillCounted(Step(s, e), Crossed(s, e, crossed))
  {
    var s' := Step(s, e);
    forall p | p in Waiting(s') && p !in Crossed(s, e, crossed) ensures s'.phases[p].k <= s'.counter {
      assert p in s.phases ==> p in Waiting(s) && s'.phases[p].k == s.phases[p].k;
    }
  }

  /** Then whoever takes the lock finds counted what it read, for any number of refreshers. */
  lemma {:induction false} UncrossedIsCovered(s: Sys, es: seq<Event>, crossed: set<nat>)
    requires Inv(s) && Solvent(s) && StillCounted(s, crossed) && Uncrossed(s, es, crossed)
    ensures Covered(s, es)
    decreases |es|
  {
    if es != [] {
      if Takes(s, es[0]) {
        assert es[0].p in Waiting(s);
      }
      StepKeeps(s, es[0]);
      StepSolvent(s, es[0]);
      StillCountedKeeps(s, es[0], crossed);
      UncrossedIsCovered(Step(s, es[0]), es[1..], Crossed(s, es[0], crossed));
    }
  }

  lemma UncrossedZeroMeansCurrent(rows: seq<Record>, es: seq<Event>)
    requires Uncrossed(Init(rows), es, {})
    ensures Run(Init(rows), es).counter >= 0 && Trustworthy(Run(Init(rows), es))
  {
    UncrossedIsCovered(Init(rows), es, {});
    CoveredKeeps(Init(rows), es);
    ZeroMeansCurrent(rows, es);
  }
}

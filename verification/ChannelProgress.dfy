/** Whether two peers of ChannelSystem can come to a standstill while a read waits for bytes its peer has
    accepted. Two things can bring them there: a read whose size `grow_window` takes as negative, and a packet
    that its receiver's buffer cannot take any more, because `realloc_buffer` then never returns. */
module ChannelProgress {
  import opened MachineInts
  import opened SshBuffer
  import opened ChannelPeer
  import opened ChannelSystem
  import opened ChannelSafety

  // ----- moves: what happens without a caller beginning or ending anything

  predicate IsMove(act: Action) {
    act == WriteStep || act == Parse
  }

  ghost predicate Moves(s: System) {
    exists side, act :: IsMove(act) && Step(s, side, act) != s
  }

  function Left(n: Node): nat {
    if n.call.Writing? then 1 + 2 * |n.call.left| else 0
  }

  function ToDo(s: System): nat {
    Left(s.a) + Left(s.b) + |s.fromA| + |s.fromB|
  }

  lemma MoveCounts(s: System, side: Side, act: Action)
    requires IsMove(act) && Step(s, side, act) != s
    ensures ToDo(Step(s, side, act)) < ToDo(s)
  {
    if act == WriteStep {
      var n := if side == A then s.a else s.b;
      if n.call.Writing? && n.call.left != [] && ChunkLength(n.peer, |n.call.left|) == 0 {
        NothingSent(n);
      }
    }
  }

  lemma NothingSent(n: Node)
    requires n.call.Writing? && n.call.left != [] && n.peer.remoteWindow == 0
    ensures Act(n, WriteStep) == n && Sends(n, WriteStep) == []
  {
    assert n.call.left[0..] == n.call.left && n.written + n.call.left[..0] == n.written;
  }

  /** Every step of the run is a move that changes something. */
  ghost predicate AllMove(s: System, steps: seq<(Side, Action)>)
    decreases |steps|
  {
    steps == [] || (var t := Step(s, steps[0].0, steps[0].1); IsMove(steps[0].1) && t != s && AllMove(t, steps[1..]))
  }

  /** In whatever order they are made, moves come to an end. */
  lemma {:induction false} MovesEnd(s: System, steps: seq<(Side, Action)>)
    requires AllMove(s, steps)
    ensures |steps| + ToDo(Run(s, steps)) <= ToDo(s)
    decreases |steps|
  {
    if steps != [] {
      MoveCounts(s, steps[0].0, steps[0].1);
      MovesEnd(Step(s, steps[0].0, steps[0].1), steps[1..]);
    }
  }

  /** Where no move is left, a read still waits only if it has everything its peer has accepted and the peer has
      not ended the stream. */
  ghost predicate Live(s: System) {
    !Moves(s) ==>
      && (Waiting(s.b) ==> s.a.accepted == s.b.delivered + s.b.peer.buffered && !s.a.peer.localEof)
      && (Waiting(s.a) ==> s.b.accepted == s.a.delivered + s.a.peer.buffered && !s.b.peer.localEof)
  }

  /** Reachable with reads of at most `most` bytes and at most `longest` bytes accepted from either writer. */
  ghost predicate Within(s: System, most: u32, longest: nat) {
    Reaches(s, most) && |s.a.accepted| <= longest && |s.b.accepted| <= longest
  }

  ghost predicate AlwaysLive(most: u32, longest: nat) {
    forall s :: Within(s, most, longest) ==> Live(s)
  }

  // ----- what the buffer has to take

  /** The streams, and that a buffer that was not emptied holds no more bytes already read than were returned.
      This does not depend on the sizes of reads. */
  ghost predicate Flows(s: System) {
    && Stream(s.a, s.b, s.fromA) && Stream(s.b, s.a, s.fromB)
    && s.a.peer.passed <= |s.a.delivered| && s.b.peer.passed <= |s.b.delivered|
  }

  lemma PassedAct(n: Node, act: Action)
    requires n.peer.passed <= |n.delivered| && act != Parse
    ensures Act(n, act).peer.passed <= |Act(n, act).delivered|
  {
    if act.EndRead? && n.call.Reading? {
      var p, k := n.peer, ReadLength(n.peer, n.call.count, n.call.exact);
      assert LeaveRead(p, n.call.count, n.call.exact).passed <= p.passed + if AtEnd(p) then 0 else k;
      assert |LeaveReadBytes(p, n.call.count, n.call.exact)| == if AtEnd(p) then 0 else k;
    }
  }

  lemma FlowStepA(s: System, act: Action)
    requires Flows(s)
    ensures Flows(StepA(s, act))
  {
    if act != Parse {
      ActStreams(s.a, act);
      PassedAct(s.a, act);
      StreamsKept(s.a, Act(s.a, act), Sends(s.a, act), s.b, s.fromA, s.fromB);
    } else if s.fromB != [] {
      assert s.fromB == [s.fromB[0]] + s.fromB[1..];
      ParseStreamIn(s.a, s.b, s.fromB[0], s.fromB[1..]);
    }
  }

  lemma {:induction false} FlowRun(s: System, steps: seq<(Side, Action)>)
    requires Flows(s)
    ensures Flows(Run(s, steps))
    decreases |steps|
  {
    if steps != [] {
      FlowStepA(if steps[0].0 == A then s else Swap(s), steps[0].1);
      FlowRun(Step(s, steps[0].0, steps[0].1), steps[1..]);
    }
  }

  /** Reads of 0 bytes always empty the buffer. */
  ghost predicate Tidy(m: Node) {
    && (m.call.Reading? ==> m.call.count == 0 && m.call.exact)
    && m.peer.passed == 0 && m.peer.localWindow + |m.peer.buffered| <= 2 * WINDOW_BASE
  }

  lemma TidyAct(n: Node, act: Action)
    requires Tidy(n) && act != Parse && (act.BeginRead? ==> act.count == 0)
    ensures Tidy(Act(n, act))
  {}

  lemma TidyParse(n: Node, m: Msg)
    requires Tidy(n) && (m.Data? ==> |m.payload| <= n.peer.localWindow)
    ensures Tidy(n.(peer := Receive(n.peer, m)))
  {}

  lemma TidyStepA(s: System, act: Action)
    requires Inv(s, 0) && Tidy(s.a) && (act.BeginRead? ==> act.count == 0)
    ensures Tidy(StepA(s, act).a)
  {
    if act != Parse {
      TidyAct(s.a, act);
    } else if s.fromB != [] {
      PayloadCovers(s.fromB);
      assert s.fromB[0] in s.fromB;
      TidyParse(s.a, s.fromB[0]);
    }
  }

  lemma {:induction false} TidyRun(s: System, steps: seq<(Side, Action)>)
    requires Inv(s, 0) && ReadsAtMost(steps, 0) && Tidy(s.a) && Tidy(s.b)
    ensures Tidy(Run(s, steps).a) && Tidy(Run(s, steps).b)
    decreases |steps|
  {
    if steps != [] {
      StepKeeps(s, steps[0].0, steps[0].1, 0);
      TidyStepA(if steps[0].0 == A then s else Swap(s), steps[0].1);
      TidyRun(Step(s, steps[0].0, steps[0].1), steps[1..]);
    }
  }

  lemma ReachableFlows(s: System, most: u32)
    requires Reaches(s, most)
    ensures Flows(s)
    ensures most == 0 ==> Inv(s, 0) && Tidy(s.a) && Tidy(s.b)
  {
    var s0 := Opened(CLIENT_WINDOW, SERVER_WINDOW);
    var steps :| ReadsAtMost(steps, most) && Run(s0, steps) == s;
    FlowRun(s0, steps);
    if most == 0 {
      ReachableInv(s, 0);
      OpenedKeeps(0);
      TidyRun(s0, steps);
    }
  }

  /** The buffer takes every packet when reads empty it or the stream is short enough. */
  lemma HeadFits(n: Node, m: Node, out: seq<Msg>)
    requires Stream(n, m, out) && m.peer.passed <= |m.delivered| && out != []
    requires || |n.accepted| <= BUFFER_LIMIT
             || (m.peer.passed == 0 && |m.peer.buffered| + |Payload(out)| <= 2 * WINDOW_BASE)
    ensures Fits(m.peer, out[0])
  {
    PayloadCovers(out);
    assert out[0] in out;
    assert |n.written| == |m.delivered| + |m.peer.buffered| + |Payload(out)|;
  }

  /** So no packet ever fails to fit, whoever parses it. */
  lemma AlwaysFits(s: System, most: u32, longest: nat)
    requires Within(s, most, longest) && (most == 0 || longest <= BUFFER_LIMIT)
    ensures s.fromA != [] ==> Fits(s.b.peer, s.fromA[0])
    ensures s.fromB != [] ==> Fits(s.a.peer, s.fromB[0])
  {
    ReachableFlows(s, most);
    if s.fromA != [] {
      HeadFits(s.a, s.b, s.fromA);
    }
    if s.fromB != [] {
      HeadFits(s.b, s.a, s.fromB);
    }
  }

  // ----- progress

  /** Without moves the links are empty and every writer is done or without window. */
  lemma NoMoves(s: System)
    requires !Moves(s)
    requires s.fromA != [] ==> Fits(s.b.peer, s.fromA[0])
    requires s.fromB != [] ==> Fits(s.a.peer, s.fromB[0])
    ensures s.fromA == [] && s.fromB == []
    ensures s.a.call.Writing? ==> s.a.call.left != [] && s.a.peer.remoteWindow == 0
    ensures s.b.call.Writing? ==> s.b.call.left != [] && s.b.peer.remoteWindow == 0
  {
    assert Step(s, A, Parse) == s && Step(s, B, Parse) == s;
    assert Step(s, A, WriteStep) == s && Step(s, B, WriteStep) == s;
    assert s.fromB != [] ==> |Step(s, A, Parse).fromB| < |s.fromB|;
    assert s.fromA != [] ==> |Step(s, B, Parse).fromA| < |s.fromA|;
  }

  /** A reader that waits has window, so its writer has none left over only if it has nothing to write. */
  lemma ReaderHasAll(n: Node, m: Node, most: u32)
    requires Direction(n, m, [], [], most) && Waiting(m)
    requires n.call.Writing? ==> n.call.left != [] && n.peer.remoteWindow == 0
    ensures n.accepted == m.delivered + m.peer.buffered && !n.peer.localEof
  {}

  lemma WithinIsLive(s: System, most: u32, longest: nat)
    requires most < I32_LIMIT && Within(s, most, longest) && (most == 0 || longest <= BUFFER_LIMIT)
    ensures Live(s)
  {
    ReachableInv(s, most);
    AlwaysFits(s, most, longest);
    if !Moves(s) {
      NoMoves(s);
      if Waiting(s.b) {
        ReaderHasAll(s.a, s.b, most);
      }
      if Waiting(s.a) {
        ReaderHasAll(s.b, s.a, most);
      }
    }
  }

  // ----- standstill

  lemma ReachesMore(s: System, most: u32, more: u32)
    requires Reaches(s, most) && most <= more
    ensures Reaches(s, more)
  {
    var steps :| ReadsAtMost(steps, most) && Run(Opened(CLIENT_WINDOW, SERVER_WINDOW), steps) == s;
    assert ReadsAtMost(steps, more);
  }

  /** A read that waits for a packet its buffer cannot take waits for ever, whatever anyone does. */
  lemma {:induction false} HungForever(s: System, more: seq<(Side, Action)>)
    requires Waiting(s.b) && s.fromA != [] && !Fits(s.b.peer, s.fromA[0])
    ensures Run(s, more).b == s.b
    decreases |more|
  {
    if more != [] {
      HungForever(Step(s, more[0].0, more[0].1), more[1..]);
    }
  }

  const LARGE_READ: u32 := 0x4000_0000

  /** An ordinary read of 2^30 bytes and a writer that fills its window: no step changes anything any more. */
  lemma StallBelowTheSignBit() returns (s: System)
    ensures Reaches(s, LARGE_READ)
    ensures Waiting(s.b) && s.a.call.Writing? && s.a.call.left != []
    ensures forall side, act :: Step(s, side, act) == s
  {
    var n := LARGE_READ + SERVER_WINDOW;
    s := AskForMuch();
    var data := seq(n + 1, i => 0);
    var s1 := ReachStep(s, A, BeginWrite(data), LARGE_READ);
    WriteBegins(s, data);
    s := ReachStep(s1, A, WriteStep, LARGE_READ);
    ChunkIsSent(s1, n);
    assert |data[..n]| > BUFFER_LIMIT;
    Stuck(s);
  }

  lemma AskForMuch() returns (s: System)
    ensures Reaches(s, LARGE_READ) && s.fromA == [] && s.fromB == []
    ensures s.a.call == Idle && WriteAllowed(s.a.peer) && s.a.peer.remoteWindow == LARGE_READ + SERVER_WINDOW
    ensures Waiting(s.b)
  {
    var s0 := Opened(CLIENT_WINDOW, SERVER_WINDOW);
    assert Run(s0, []) == s0;
    s := ReachStep(s0, B, BeginRead(LARGE_READ, true), LARGE_READ);
    WindowAsked(s0);
    WindowGranted(s, LARGE_READ);
    s := ReachStep(s, A, Parse, LARGE_READ);
  }

  lemma WindowAsked(s: System)
    requires s == Opened(CLIENT_WINDOW, SERVER_WINDOW)
    ensures var p := s.b.peer.(localWindow := LARGE_READ + SERVER_WINDOW);
            Step(s, B, BeginRead(LARGE_READ, true))
              == s.(b := s.b.(peer := p, call := Reading(LARGE_READ, true)), fromB := [WindowAdjust(LARGE_READ)])
  {
    assert AsksForMore(s.b.peer, LARGE_READ) && Increment(LARGE_READ) == LARGE_READ;
  }

  lemma WindowGranted(s: System, bytes: u32)
    requires s.fromB == [WindowAdjust(bytes)] && s.a.peer.remoteWindow + bytes < U32_LIMIT
    ensures var p := s.a.peer.(remoteWindow := s.a.peer.remoteWindow + bytes);
            Step(s, A, Parse) == s.(a := s.a.(peer := p), fromB := [])
  {
  }

  // ----- small reads that never empty the buffer

  /** B has read `n` bytes one by one and never emptied its buffer. */
  ghost predicate Steady(s: System, n: nat) {
    && Reaches(s, 1) && s.fromA == [] && s.fromB == []
    && s.a.call == Idle && s.b.call == Idle && WriteAllowed(s.a.peer) && WriteAllowed(s.b.peer)
    && s.a.peer.buffered == [] && s.a.peer.passed == 0 && !s.a.peer.remoteEof
    && |s.b.peer.buffered| == 1 && s.b.peer.passed == n && !s.b.peer.remoteEof
    && |s.a.accepted| == n + 1 && s.b.accepted == []
  }

  /** A writes one byte. */
  lemma SendByte(s: System) returns (t: System)
    requires Reaches(s, 1) && s.fromA == [] && s.a.call == Idle && WriteAllowed(s.a.peer) && s.a.peer.remoteWindow > 0
    ensures Reaches(t, 1)
    ensures t == s.(a := s.a.(peer := SendChunk(s.a.peer, 1), accepted := s.a.accepted + [0],
                              written := s.a.written + [0]),
                    fromA := [Data([0])])
  {
    var s1 := ReachStep(s, A, BeginWrite([0]), 1);
    assert s1 == s.(a := s.a.(call := Writing([0]), accepted := s.a.accepted + [0]));
    var s2 := ReachStep(s1, A, WriteStep, 1);
    assert [0][1..] == [] && [0][..1] == [0];
    t := ReachStep(s2, A, WriteStep, 1);
  }

  /** B parses it, */
  lemma TakeByte(s: System) returns (t: System)
    requires Reaches(s, 1) && s.fromA == [Data([0])] && Fits(s.b.peer, s.fromA[0])
    ensures Reaches(t, 1) && t == s.(b := s.b.(peer := Receive(s.b.peer, Data([0]))), fromA := [])
  {
    t := ReachStep(s, B, Parse, 1);
  }

  /** and returns the one before. */
  lemma ReadByte(s: System) returns (t: System)
    requires Reaches(s, 1) && s.fromA == [] && s.fromB == [] && s.b.call == Idle
    requires |s.b.peer.buffered| == 2 && !s.b.peer.remoteEof
    ensures Reaches(t, 1) && t.fromA == [] && t.fromB == []
    ensures t.a == s.a.(peer := s.a.peer.(remoteWindow := t.a.peer.remoteWindow))
    ensures var p := t.b.peer;
            && t.b.call == Idle && t.b.accepted == s.b.accepted
            && p == s.b.peer.(localWindow := p.localWindow, buffered := s.b.peer.buffered[1..],
                              passed := s.b.peer.passed + 1)
  {
    ReachableInv(s, 1);
    NothingAsked(s.b);
    t := ReachStep(s, B, BeginRead(1, true), 1);
    assert t == s.(b := s.b.(call := Reading(1, true)), fromB := []);
    OneByteRead(t.b);
    t := ReachStep(t, B, EndRead, 1);
    AdjustmentParsed(t);
    t := ReachStep(t, A, Parse, 1);
  }

  lemma NothingAsked(n: Node)
    requires n.call == Idle && Room(n, 1)
    ensures Act(n, BeginRead(1, true)) == n.(call := Reading(1, true)) && Sends(n, BeginRead(1, true)) == []
  {
  }

  lemma AdjustmentParsed(s: System)
    requires s.fromB == [] || s.fromB == [WindowAdjust(WINDOW_BASE)]
    ensures var t := Step(s, A, Parse);
            t == s.(a := s.a.(peer := s.a.peer.(remoteWindow := t.a.peer.remoteWindow)), fromB := [])
  {
  }

  lemma OneByteRead(n: Node)
    requires n.call == Reading(1, true) && |n.peer.buffered| == 2 && !n.peer.remoteEof
    ensures var n' := Act(n, EndRead);
            && n'.call == Idle && n'.accepted == n.accepted
            && n'.peer == n.peer.(localWindow := n'.peer.localWindow, buffered := n.peer.buffered[1..],
                                  passed := n.peer.passed + 1)
    ensures Sends(n, EndRead) == [] || Sends(n, EndRead) == [WindowAdjust(WINDOW_BASE)]
  {
  }

  lemma NextSteady(s: System, n: nat) returns (t: System)
    requires Steady(s, n) && n + 2 <= BUFFER_LIMIT
    ensures Steady(t, n + 1)
  {
    ReachableInv(s, 1);
    var s1 := SendByte(s);
    var s2 := TakeByte(s1);
    t := ReadByte(s2);
  }

  lemma {:induction false} ReachSteady(n: nat) returns (s: System)
    requires n < BUFFER_LIMIT
    ensures Steady(s, n)
  {
    if n == 0 {
      var s0 := Opened(CLIENT_WINDOW, SERVER_WINDOW);
      assert Run(s0, []) == s0;
      s := SendByte(s0);
      s := TakeByte(s);
    } else {
      s := ReachSteady(n - 1);
      s := NextSteady(s, n - 1);
    }
  }

  /** The byte after the first 2^30 finds no room. B, which would have to parse it to write on, hangs, and A waits
      for the rest of what B has accepted. */
  lemma StallOfSmallReads() returns (s: System)
    ensures Within(s, 1, BUFFER_LIMIT + 1) && !Live(s)
    ensures forall side, act :: Step(s, side, act) == s
  {
    s := ReachSteady(BUFFER_LIMIT - 1);
    ReachableInv(s, 1);
    s := SendByte(s);
    PayloadOne(Data([0]));
    s := FillBack(s);
    s := ReadAll(s);
    Stuck(Swap(s));
    forall side, act ensures Step(s, side, act) == s {
      assert Step(Swap(s), side, act) == Swap(s);
      assert Step(Swap(s), if side == A then B else A, act) == Swap(s);
    }
  }

  /** B writes one byte more than its window, and A parses what comes. */
  lemma FillBack(s: System) returns (t: System)
    requires Reaches(s, 1) && s.b.call == Idle && WriteAllowed(s.b.peer) && s.fromB == [] && s.b.accepted == []
    requires s.a.peer.buffered == [] && s.a.peer.passed == 0 && Adjustments(s.fromA) == 0
    ensures Reaches(t, 1) && t.fromA == s.fromA && t.fromB == []
    ensures t.b.call.Writing? && t.b.call.left != [] && t.b.peer == s.b.peer.(remoteWindow := 0)
    ensures t.a == s.a.(peer := t.a.peer) && t.a.peer.remoteEof == s.a.peer.remoteEof
    ensures t.a.peer.localWindow == 0 && t.a.peer.buffered != []
    ensures |t.b.accepted| == |t.a.delivered| + |t.a.peer.buffered| + 1 <= 2 * WINDOW_BASE + 1
  {
    ReachableInv(s, 1);
    var w := s.b.peer.remoteWindow;
    var data := seq(w + 1, i => 0);
    var s1 := ReachStep(s, B, BeginWrite(data), 1);
    var s2 := ReachStep(s1, B, WriteStep, 1);
    assert s2 == s.(b := s2.b, fromB := [Data(data[..w])]);
    t := ReachStep(s2, A, Parse, 1);
    assert t.a.peer.buffered == data[..w];
  }

  /** A reads all there is, and then waits for one byte more. */
  lemma ReadAll(s: System) returns (t: System)
    requires Reaches(s, 1) && s.a.call == Idle && s.a.peer.localWindow == 0
    requires s.a.peer.buffered != [] && !s.a.peer.remoteEof
    ensures Reaches(t, 1) && t.b == s.b && t.fromB == s.fromB && t.fromA == s.fromA + [WindowAdjust(WINDOW_BASE)]
    ensures Waiting(t.a) && t.a.accepted == s.a.accepted
    ensures t.a.delivered + t.a.peer.buffered == s.a.delivered + s.a.peer.buffered
  {
    t := ReachStep(s, A, BeginRead(0, true), 1);
    assert s.fromA + [] == s.fromA && t == s.(a := s.a.(call := Reading(0, true)));
    AllRead(t.a);
    t := ReachStep(t, A, EndRead, 1);
    assert t.fromA + [] == t.fromA;
    t := ReachStep(t, A, BeginRead(1, true), 1);
  }

  lemma AllRead(n: Node)
    requires n.call == Reading(0, true) && n.peer.buffered != [] && n.peer.localWindow == 0
    ensures var p := n.peer.(localWindow := WINDOW_BASE, buffered := [], passed := 0);
            Act(n, EndRead) == n.(peer := p, call := Idle, delivered := n.delivered + n.peer.buffered)
    ensures Sends(n, EndRead) == [WindowAdjust(WINDOW_BASE)]
  {
    assert n.peer.buffered[..|n.peer.buffered|] == n.peer.buffered;
  }

  // ----- the exact condition

  /** Standstill never happens exactly if reads always empty the buffer, or stay below 2^31 bytes on streams of at
      most 2^30. */
  lemma LiveIff(most: u32, longest: nat)
    requires most < I32_LIMIT || longest >= STALL_LENGTH
    ensures AlwaysLive(most, longest) <==> most == 0 || (most < I32_LIMIT && longest <= BUFFER_LIMIT)
  {
    if most == 0 || (most < I32_LIMIT && longest <= BUFFER_LIMIT) {
      forall s | Within(s, most, longest) ensures Live(s) {
        WithinIsLive(s, most, longest);
      }
    } else if most < I32_LIMIT {
      var s := StallOfSmallReads();
      ReachesMore(s, 1, most);
      assert Within(s, most, longest) && !Live(s);
    } else {
      var s := StallAtTheSignBit();
      ReachesMore(s, I32_LIMIT, most);
      assert !Moves(s);
      assert Within(s, most, longest) && !Live(s);
    }
  }

  /** The buffer: no packet ever fails to fit exactly if reads always empty it or streams have at most 2^30
      bytes. */
  ghost predicate TakesAll(most: u32, longest: nat) {
    forall s :: Within(s, most, longest) ==>
      && (s.fromA != [] ==> Fits(s.b.peer, s.fromA[0]))
      && (s.fromB != [] ==> Fits(s.a.peer, s.fromB[0]))
  }

  lemma FitsIff(most: u32, longest: nat)
    ensures TakesAll(most, longest) <==> most == 0 || longest <= BUFFER_LIMIT
  {
    if most == 0 || longest <= BUFFER_LIMIT {
      forall s | Within(s, most, longest)
        ensures s.fromA != [] ==> Fits(s.b.peer, s.fromA[0])
        ensures s.fromB != [] ==> Fits(s.a.peer, s.fromB[0])
      {
        AlwaysFits(s, most, longest);
      }
    } else {
      var s := ReachSteady(BUFFER_LIMIT - 1);
      ReachableInv(s, 1);
      s := SendByte(s);
      ReachesMore(s, 1, most);
      assert s.fromA != [] && !Fits(s.b.peer, s.fromA[0]);
      assert Within(s, most, longest);
    }
  }
}

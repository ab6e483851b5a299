/** The invariants of ChannelSystem hold in every reachable state, and what follows from them. */
module ChannelSafety {
  import opened MachineInts
  import opened SshBuffer
  import opened ChannelPeer
  import opened ChannelSystem

  // ----- what each step does to the quantities in the invariant

  lemma EnterReadKeepsRoom(p: Peer, count: u32, most: u32)
    requires count <= most < I32_LIMIT && |p.buffered| <= BUFFER_LIMIT
    requires p.localWindow + |p.buffered| < U32_LIMIT
    ensures var q := EnterRead(p, count);
            && q == p.(localWindow := q.localWindow)
            && q.localWindow + |q.buffered| < U32_LIMIT
            && count <= q.localWindow + |q.buffered|
            && p.localWindow + Adjustments(EnterReadSends(p, count)) == q.localWindow
            && (q.localWindow == p.localWindow || q.localWindow <= 2 * Max(WINDOW_BASE, most))
            && Payload(EnterReadSends(p, count)) == []
  {
    if AsksForMore(p, count) {
      var rest := |p.buffered|;
      assert ToU32(count - rest) == count - rest;
      PayloadOne(WindowAdjust(Increment(ToU32(count - rest))));
    }
  }

  lemma LeaveReadKeepsRoom(p: Peer, count: u32, exact: bool, most: u32)
    requires |p.buffered| + p.passed <= BUFFER_LIMIT
    requires p.localWindow + |p.buffered| < U32_LIMIT && p.localWindow + |p.buffered| >= SERVER_WINDOW
    ensures var q := LeaveRead(p, count, exact);
            && q.localWindow + |q.buffered| < U32_LIMIT
            && q.localWindow + |q.buffered| >= SERVER_WINDOW
            && |q.buffered| + q.passed <= BUFFER_LIMIT
            && p.localWindow + Adjustments(LeaveReadSends(p)) == q.localWindow
            && (q.localWindow == p.localWindow || q.localWindow <= 2 * WINDOW_BASE)
            && Payload(LeaveReadSends(p)) == []
            && q.remoteWindow == p.remoteWindow
            && LeaveReadBytes(p, count, exact) + q.buffered == p.buffered
  {
    PayloadOne(WindowAdjust(Increment(0)));
    assert Increment(0) == WINDOW_BASE;
    if !AtEnd(p) {
      var k := ReadLength(p, count, exact);
      assert p.buffered[..k] + p.buffered[k..] == p.buffered;
    }
  }

  /** What a writer has accepted is written or still to be written. */
  ghost predicate Accounted(n: Node) {
    n.accepted == n.written + (if n.call.Writing? then n.call.left else [])
  }

  /** What a node's step does to its streams, in terms of what it sends. */
  ghost predicate StreamEffect(n: Node, n': Node, sent: seq<Msg>) {
    && n'.written == n.written + Payload(sent)
    && n'.delivered + n'.peer.buffered == n.delivered + n.peer.buffered
    && Accounted(n')
  }

  /** And to its windows. */
  ghost predicate Effect(n: Node, n': Node, sent: seq<Msg>, most: u32) {
    && StreamEffect(n, n', sent)
    && n'.peer.localWindow == n.peer.localWindow + Adjustments(sent)
    && n'.peer.remoteWindow + |Payload(sent)| == n.peer.remoteWindow
    && Room(n', most)
  }

  lemma ReadStreams(n: Node, act: Action)
    requires (act.BeginRead? || act.EndRead?) && Accounted(n)
    ensures StreamEffect(n, Act(n, act), Sends(n, act))
  {
    var sent := Sends(n, act);
    if sent != [] {
      PayloadOne(sent[0]);
      assert sent == [sent[0]];
    }
    assert n.written + [] == n.written;
    if act.EndRead? && n.call.Reading? {
      var bytes, q := LeaveReadBytes(n.peer, n.call.count, n.call.exact), LeaveRead(n.peer, n.call.count, n.call.exact);
      assert bytes + q.buffered == n.peer.buffered;
      assert n.delivered + bytes + q.buffered == n.delivered + (bytes + q.buffered);
    }
  }

  lemma WriteStreams(n: Node, act: Action)
    requires (act.BeginWrite? || act.WriteStep?) && Accounted(n)
    ensures StreamEffect(n, Act(n, act), Sends(n, act))
  {
    if act.WriteStep? && n.call.Writing? {
      var k := ChunkLength(n.peer, |n.call.left|);
      PayloadOne(Data(n.call.left[..k]));
      assert n.call.left == n.call.left[..k] + n.call.left[k..];
    }
  }

  lemma ActStreams(n: Node, act: Action)
    requires act != Parse && Accounted(n)
    ensures StreamEffect(n, Act(n, act), Sends(n, act))
  {
    if act.BeginRead? || act.EndRead? {
      ReadStreams(n, act);
    } else if act.BeginWrite? || act.WriteStep? {
      WriteStreams(n, act);
    } else {
      EndsCarryNothing(n);
    }
  }

  lemma EndsCarryNothing(n: Node)
    ensures Payload([Eof]) == [] && Payload(CloseSends(n.peer)) == []
    ensures Adjustments([Eof]) == 0 && Adjustments(CloseSends(n.peer)) == 0
  {
    PayloadOne(Eof);
    PayloadOne(Close);
    PayloadAppend(if n.peer.localEof then [] else [Eof], [Close]);
  }

  lemma BeginReadEffect(n: Node, count: u32, exact: bool, most: u32)
    requires Room(n, most) && count <= most < I32_LIMIT
    requires Accounted(n)
    ensures Effect(n, Act(n, BeginRead(count, exact)), Sends(n, BeginRead(count, exact)), most)
  {
    EnterReadKeepsRoom(n.peer, count, most);
    ReadStreams(n, BeginRead(count, exact));
  }

  lemma EndReadEffect(n: Node, most: u32)
    requires Room(n, most)
    requires Accounted(n)
    ensures Effect(n, Act(n, EndRead), Sends(n, EndRead), most)
  {
    if n.call.Reading? {
      LeaveReadKeepsRoom(n.peer, n.call.count, n.call.exact, most);
    }
    ReadStreams(n, EndRead);
  }

  lemma WriteEffect(n: Node, act: Action, most: u32)
    requires act.BeginWrite? || act.WriteStep?
    requires Room(n, most)
    requires Accounted(n)
    ensures Effect(n, Act(n, act), Sends(n, act), most)
  {
    WriteStreams(n, act);
    if act.WriteStep? && n.call.Writing? {
      PayloadOne(Data(n.call.left[..ChunkLength(n.peer, |n.call.left|)]));
    }
  }

  lemma ActEffect(n: Node, act: Action, most: u32)
    requires act != Parse && (act.BeginRead? ==> act.count <= most)
    requires Room(n, most) && most < I32_LIMIT
    requires Accounted(n)
    ensures Effect(n, Act(n, act), Sends(n, act), most)
  {
    if act.BeginRead? {
      BeginReadEffect(n, act.count, act.exact, most);
    } else if act.EndRead? {
      EndReadEffect(n, most);
    } else if act.BeginWrite? || act.WriteStep? {
      WriteEffect(n, act, most);
    } else {
      ActStreams(n, act);
      EndsCarryNothing(n);
    }
  }

  lemma ActEnding(n: Node, m: Node, out: seq<Msg>, back: seq<Msg>, act: Action, most: u32)
    requires act != Parse
    requires Direction(n, m, out, back, most) && Direction(m, n, back, out, most)
    ensures Ending(Act(n, act), m, out + Sends(n, act))
    ensures Ending(m, Act(n, act), back)
  {
    SendsEnding(n, act);
    PayloadAppend(out, Sends(n, act));
    EndAppend(out, Sends(n, act));
  }

  lemma SendsEnding(n: Node, act: Action)
    requires act != Parse && (n.peer.localEof ==> !n.call.Writing?)
    ensures NoDataAfterEnd(Sends(n, act))
    ensures n.peer.localEof ==> Payload(Sends(n, act)) == []
    ensures Act(n, act).peer.localEof <==> n.peer.localEof || AnnouncesEnd(Sends(n, act))
  {
    var ms := Sends(n, act);
    if |ms| == 1 {
      PayloadOne(ms[0]);
      assert ms == [ms[0]] && ms[1..] == [];
    } else if |ms| == 2 {
      assert ms == [Eof] + [Close];
      PayloadAppend([Eof], [Close]);
      PayloadOne(Eof);
      PayloadOne(Close);
      NoPayloadNoData(ms);
    }
  }

  /** Parsing moves data from the link to the buffer. */
  lemma ParseStreamIn(n: Node, m: Node, msg: Msg, rest: seq<Msg>)
    requires Stream(m, n, [msg] + rest)
    ensures Stream(m, n.(peer := Receive(n.peer, msg)), rest)
  {
    PayloadAppend([msg], rest);
    PayloadOne(msg);
    var got := n.delivered + n.peer.buffered;
    assert got + (Payload([msg]) + Payload(rest)) == got + Payload([msg]) + Payload(rest);
    if msg.Data? {
      assert n.delivered + (n.peer.buffered + msg.payload) == got + msg.payload;
    }
  }

  /** And out of the window. */
  lemma ParseWindowIn(n: Node, m: Node, msg: Msg, rest: seq<Msg>, out: seq<Msg>, most: u32)
    requires Fits(n.peer, msg) && Windows(m, n, [msg] + rest, out) && Room(n, most)
    ensures var n' := n.(peer := Receive(n.peer, msg)); Windows(m, n', rest, out) && Room(n', most)
  {
    PayloadAppend([msg], rest);
    PayloadOne(msg);
  }

  lemma ParseEndingIn(n: Node, m: Node, msg: Msg, rest: seq<Msg>)
    requires Fits(n.peer, msg) && Ending(m, n, [msg] + rest)
    requires Payload([msg] + rest) == Payload([msg]) + Payload(rest)
    ensures Ending(m, n.(peer := Receive(n.peer, msg)), rest)
  {
    assert ([msg] + rest)[1..] == rest;
    PayloadOne(msg);
    if msg.Eof? || msg.Close? {
      NoPayloadNoData(rest);
    }
  }

  /** Parsing a packet keeps the direction it came along. */
  lemma ParseKeepsIn(n: Node, m: Node, back: seq<Msg>, out: seq<Msg>, most: u32)
    requires back != [] && Fits(n.peer, back[0])
    requires Direction(m, n, back, out, most)
    ensures var n' := n.(peer := Receive(n.peer, back[0]));
            Direction(m, n', back[1..], out, most)
  {
    var rest := back[1..];
    assert back == [back[0]] + rest;
    PayloadAppend([back[0]], rest);
    PayloadOne(back[0]);
    ParseEndingIn(n, m, back[0], rest);
    ParseStreamIn(n, m, back[0], rest);
    ParseWindowIn(n, m, back[0], rest, out, most);
  }

  /** Parsing a packet keeps the other direction, whose window an adjustment enlarges. */
  lemma ParseKeepsOut(n: Node, m: Node, out: seq<Msg>, back: seq<Msg>, most: u32)
    requires back != [] && Direction(n, m, out, back, most)
    ensures var n' := n.(peer := Receive(n.peer, back[0]));
            Direction(n', m, out, back[1..], most)
  {
    assert back == [back[0]] + back[1..];
    PayloadAppend([back[0]], back[1..]);
    PayloadOne(back[0]);
  }

  /** A node's step keeps the windows and the streams of both directions. */
  lemma EffectKeeps(n: Node, n': Node, sent: seq<Msg>, m: Node, out: seq<Msg>, back: seq<Msg>, most: u32)
    requires Effect(n, n', sent, most)
    requires Windows(n, m, out, back) && Stream(n, m, out)
    requires Windows(m, n, back, out) && Stream(m, n, back)
    ensures Windows(n', m, out + sent, back) && Stream(n', m, out + sent)
    ensures Windows(m, n', back, out + sent) && Stream(m, n', back)
  {
    PayloadAppend(out, sent);
    StreamsKept(n, n', sent, m, out, back);
  }

  lemma StreamsKept(n: Node, n': Node, sent: seq<Msg>, m: Node, out: seq<Msg>, back: seq<Msg>)
    requires StreamEffect(n, n', sent) && Stream(n, m, out) && Stream(m, n, back)
    ensures Stream(n', m, out + sent) && Stream(m, n', back)
  {
    PayloadAppend(out, sent);
    var got := m.delivered + m.peer.buffered;
    assert got + (Payload(out) + Payload(sent)) == got + Payload(out) + Payload(sent);
  }

  lemma ActKeeps(n: Node, m: Node, out: seq<Msg>, back: seq<Msg>, act: Action, most: u32)
    requires act != Parse && most < I32_LIMIT && (act.BeginRead? ==> act.count <= most)
    requires Direction(n, m, out, back, most) && Direction(m, n, back, out, most)
    ensures Direction(Act(n, act), m, out + Sends(n, act), back, most)
    ensures Direction(m, Act(n, act), back, out + Sends(n, act), most)
  {
    ActEffect(n, act, most);
    EffectKeeps(n, Act(n, act), Sends(n, act), m, out, back, most);
    ActEnding(n, m, out, back, act, most);
  }

  lemma StepAKeeps(s: System, act: Action, most: u32)
    requires Inv(s, most) && most < I32_LIMIT && (act.BeginRead? ==> act.count <= most)
    ensures Inv(StepA(s, act), most)
  {
    if act == Parse {
      if s.fromB != [] && Fits(s.a.peer, s.fromB[0]) {
        ParseKeepsIn(s.a, s.b, s.fromB, s.fromA, most);
        ParseKeepsOut(s.a, s.b, s.fromA, s.fromB, most);
      }
    } else {
      ActKeeps(s.a, s.b, s.fromA, s.fromB, act, most);
    }
  }

  lemma StepKeeps(s: System, side: Side, act: Action, most: u32)
    requires Inv(s, most) && most < I32_LIMIT && (act.BeginRead? ==> act.count <= most)
    ensures Inv(Step(s, side, act), most)
  {
    StepAKeeps(if side == A then s else Swap(s), act, most);
  }

  lemma {:induction false} RunKeeps(s: System, steps: seq<(Side, Action)>, most: u32)
    requires Inv(s, most) && most < I32_LIMIT && ReadsAtMost(steps, most)
    ensures Inv(Run(s, steps), most)
    decreases |steps|
  {
    if steps != [] {
      StepKeeps(s, steps[0].0, steps[0].1, most);
      RunKeeps(Step(s, steps[0].0, steps[0].1), steps[1..], most);
    }
  }

  lemma OpenedKeeps(most: u32)
    ensures Inv(Opened(CLIENT_WINDOW, SERVER_WINDOW), most)
  {}

  // ----- theorems about every run of an opened channel

  ghost predicate Reaches(s: System, most: u32) {
    exists steps :: ReadsAtMost(steps, most) && Run(Opened(CLIENT_WINDOW, SERVER_WINDOW), steps) == s
  }

  lemma ReachableInv(s: System, most: u32)
    requires most < I32_LIMIT && Reaches(s, most)
    ensures Inv(s, most)
  {
    var steps :| ReadsAtMost(steps, most) && Run(Opened(CLIENT_WINDOW, SERVER_WINDOW), steps) == s;
    OpenedKeeps(most);
    RunKeeps(Opened(CLIENT_WINDOW, SERVER_WINDOW), steps, most);
  }

  /** Window conservation, in both directions, with the bound on the window a peer announces. */
  lemma WindowConservation(s: System, most: u32)
    requires most < I32_LIMIT && Reaches(s, most)
    ensures s.a.peer.remoteWindow + |Payload(s.fromA)| + Adjustments(s.fromB) == s.b.peer.localWindow
    ensures s.b.peer.remoteWindow + |Payload(s.fromB)| + Adjustments(s.fromA) == s.a.peer.localWindow
    ensures s.a.peer.localWindow <= 2 * Max(WINDOW_BASE, most)
    ensures s.b.peer.localWindow <= 2 * Max(WINDOW_BASE, most)
  {
    ReachableInv(s, most);
  }

  /** No packet in flight ever exceeds the window of its receiver, so the branch for a remote that
      overruns the window is never taken. */
  lemma NeverTooBig(s: System, most: u32)
    requires most < I32_LIMIT && Reaches(s, most)
    ensures forall m :: m in s.fromA && m.Data? ==> |m.payload| <= s.b.peer.localWindow
    ensures forall m :: m in s.fromB && m.Data? ==> |m.payload| <= s.a.peer.localWindow
  {
    ReachableInv(s, most);
    PayloadCovers(s.fromA);
    PayloadCovers(s.fromB);
  }

  lemma {:induction false} PayloadCovers(ms: seq<Msg>)
    ensures forall m :: m in ms && m.Data? ==> |m.payload| <= |Payload(ms)|
  {
    if ms != [] {
      PayloadCovers(ms[1..]);
      assert ms == [ms[0]] + ms[1..];
    }
  }

  predicate Waiting(n: Node) {
    n.call.Reading? && MustWait(n.peer, n.call.count, n.call.exact)
  }

  /** A read that waits has window: its peer may still send, or something is in flight. */
  lemma WaitingHasWindow(s: System, most: u32)
    requires most < I32_LIMIT && Reaches(s, most)
    ensures Waiting(s.b) ==> s.a.peer.remoteWindow + |Payload(s.fromA)| + Adjustments(s.fromB) > 0
    ensures Waiting(s.a) ==> s.b.peer.remoteWindow + |Payload(s.fromB)| + Adjustments(s.fromA) > 0
  {
    ReachableInv(s, most);
  }

  /** One byte more than the first window and one increment. */
  const STALL_LENGTH := SERVER_WINDOW + WINDOW_BASE + 1

  /** A read of 2^31 bytes makes `grow_window` see a negative size, and the pair can then reach a state where
      reader and writer wait for each other and no step of either side changes anything. */
  lemma StallAtTheSignBit() returns (s: System)
    ensures Reaches(s, I32_LIMIT)
    ensures Waiting(s.b) && s.a.call.Writing? && s.a.call.left != []
    ensures |s.a.accepted| == |s.b.delivered + s.b.peer.buffered| + 1 == STALL_LENGTH && s.b.accepted == []
    ensures s.a.peer.remoteWindow + |Payload(s.fromA)| + Adjustments(s.fromB) == 0
    ensures forall side, act :: Step(s, side, act) == s
  {
    var s0 := Opened(CLIENT_WINDOW, SERVER_WINDOW);
    assert Run(s0, []) == s0;
    var s1 := ReachStep(s0, B, BeginRead(I32_LIMIT, true), I32_LIMIT);
    assert s1.b.peer.localWindow == 160000 && s1.fromB == [WindowAdjust(128000)];
    var s2 := ReachStep(s1, A, Parse, I32_LIMIT);
    assert s2.a.peer.remoteWindow == 160000 && s2.fromB == [];
    s := FillWindow(s2, seq(160001, i => 0));
    Stuck(s);
  }

  /** The writer uses up the whole window of a reader that asked for more. */
  lemma FillWindow(s: System, data: seq<byte>) returns (t: System)
    requires Reaches(s, I32_LIMIT) && s.fromA == [] && s.fromB == []
    requires s.a.call == Idle && WriteAllowed(s.a.peer) && s.a.peer.remoteWindow == 160000 && |data| == 160001
    requires s.b.call == Reading(I32_LIMIT, true) && s.b.peer.buffered == [] && s.b.peer.passed == 0
    requires !s.b.peer.remoteEof && s.a.accepted == [] && s.b.accepted == [] && s.b.delivered == []
    ensures t.a.accepted == data && t.b.accepted == [] && t.b.delivered == [] && |t.b.peer.buffered| == 160000
    ensures Reaches(t, I32_LIMIT) && t.fromA == [] && t.fromB == []
    ensures t.a.call == Writing(data[160000..]) && t.a.peer.remoteWindow == 0
    ensures Waiting(t.b)
  {
    var s1 := ReachStep(s, A, BeginWrite(data), I32_LIMIT);
    var s2 := ReachStep(s1, A, WriteStep, I32_LIMIT);
    t := ReachStep(s2, B, Parse, I32_LIMIT);
    WriteBegins(s, data);
    ChunkIsSent(s1, 160000);
    ChunkIsTaken(s2, data[..160000]);
  }

  lemma WriteBegins(s: System, data: seq<byte>)
    requires s.a.call == Idle && WriteAllowed(s.a.peer) && data != []
    ensures var t := Step(s, A, BeginWrite(data));
            && t.a.call == Writing(data) && t.a.peer == s.a.peer && t.a.accepted == s.a.accepted + data
            && t.b == s.b && t.fromA == s.fromA && t.fromB == s.fromB
  {
    assert s.fromA + [] == s.fromA;
  }

  lemma ChunkIsSent(s: System, n: nat)
    requires s.a.call.Writing? && 0 < n == s.a.peer.remoteWindow < |s.a.call.left| && s.fromA == []
    ensures var t := Step(s, A, WriteStep); var data := s.a.call.left;
            && t.a.call == Writing(data[n..]) && t.a.peer.remoteWindow == 0 && t.a.accepted == s.a.accepted
            && t.fromA == [Data(data[..n])] && t.fromB == s.fromB && t.b == s.b
  {
  }

  lemma ChunkIsTaken(s: System, payload: seq<byte>)
    requires s.fromA == [Data(payload)] && Fits(s.b.peer, Data(payload))
    ensures var t := Step(s, B, Parse);
            && t.a == s.a && t.fromA == [] && t.fromB == s.fromB
            && t.b.call == s.b.call && t.b.accepted == s.b.accepted && t.b.delivered == s.b.delivered
            && t.b.peer.buffered == s.b.peer.buffered + payload && t.b.peer.remoteEof == s.b.peer.remoteEof
  {
  }

  lemma ReachStep(s: System, side: Side, act: Action, most: u32) returns (s': System)
    requires Reaches(s, most) && (act.BeginRead? ==> act.count <= most)
    ensures s' == Step(s, side, act) && Reaches(s', most)
  {
    s' := Step(s, side, act);
    var steps :| ReadsAtMost(steps, most) && Run(Opened(CLIENT_WINDOW, SERVER_WINDOW), steps) == s;
    RunAppend(Opened(CLIENT_WINDOW, SERVER_WINDOW), steps, side, act);
    assert ReadsAtMost(steps + [(side, act)], most);
  }

  lemma {:induction false} RunAppend(s: System, steps: seq<(Side, Action)>, side: Side, act: Action)
    ensures Run(s, steps + [(side, act)]) == Step(Run(s, steps), side, act)
    decreases |steps|
  {
    if steps == [] {
      assert [(side, act)][1..] == [];
    } else {
      assert (steps + [(side, act)])[1..] == steps[1..] + [(side, act)];
      RunAppend(Step(s, steps[0].0, steps[0].1), steps[1..], side, act);
    }
  }

  /** A waiting reader, a writer without window, and nothing on the links that can be parsed: nothing can happen
      any more. */
  lemma Stuck(s: System)
    requires Waiting(s.b) && s.a.call.Writing? && s.a.call.left != [] && s.a.peer.remoteWindow == 0
    requires (s.fromA == [] || !Fits(s.b.peer, s.fromA[0])) && (s.fromB == [] || !Fits(s.a.peer, s.fromB[0]))
    ensures forall side, act :: Step(s, side, act) == s
  {
    assert s.a.call.left[0..] == s.a.call.left;
    assert s.a.written + s.a.call.left[..0] == s.a.written;
    forall act ensures StepA(s, act) == s && StepA(Swap(s), act) == Swap(s) {
      if act != Parse {
        assert Act(s.a, act) == s.a && Sends(s.a, act) == [];
        assert Act(s.b, act) == s.b && Sends(s.b, act) == [];
      }
    }
  }

  /** Every byte accepted by a write is returned to the reader, buffered, in flight or not sent yet,
      in that order. */
  ghost predicate Delivers(n: Node, m: Node, out: seq<Msg>) {
    n.accepted == m.delivered + m.peer.buffered + Payload(out) + (if n.call.Writing? then n.call.left else [])
  }

  lemma StreamDelivery(s: System, most: u32)
    requires most < I32_LIMIT && Reaches(s, most)
    ensures Delivers(s.a, s.b, s.fromA) && Delivers(s.b, s.a, s.fromB)
  {
    ReachableInv(s, most);
  }

  /** A read reports the end of the stream only once every byte accepted has been returned, and then
      the writer can add nothing in any continuation. */
  lemma EndOfStream(s: System, more: seq<(Side, Action)>, most: u32)
    requires most < I32_LIMIT && Reaches(s, most) && ReadsAtMost(more, most)
    ensures s.b.sawEnd ==>
              s.b.delivered == s.a.accepted == Run(s, more).a.accepted == Run(s, more).b.delivered
    ensures s.a.sawEnd ==>
              s.a.delivered == s.b.accepted == Run(s, more).b.accepted == Run(s, more).a.delivered
  {
    ReachableInv(s, most);
    EndStays(s, more, most);
  }

  lemma {:induction false} EndStays(s: System, more: seq<(Side, Action)>, most: u32)
    requires Inv(s, most) && most < I32_LIMIT && ReadsAtMost(more, most)
    ensures s.b.sawEnd ==>
              s.b.delivered == s.a.accepted == Run(s, more).a.accepted == Run(s, more).b.delivered
    ensures s.a.sawEnd ==>
              s.a.delivered == s.b.accepted == Run(s, more).b.accepted == Run(s, more).a.delivered
    decreases |more|
  {
    if more != [] {
      var s' := Step(s, more[0].0, more[0].1);
      StepKeeps(s, more[0].0, more[0].1, most);
      EndStep(s, more[0].0, more[0].1);
      EndStays(s', more[1..], most);
    }
  }

  lemma EndStep(s: System, side: Side, act: Action)
    ensures var s' := Step(s, side, act);
            && (s.b.sawEnd && s.a.peer.localEof ==> s'.b.sawEnd && s'.a.accepted == s.a.accepted)
            && (s.a.sawEnd && s.b.peer.localEof ==> s'.a.sawEnd && s'.b.accepted == s.b.accepted)
  {}
}

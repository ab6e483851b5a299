/** The calls that SshChannel carries out, seen from the system: each is a run of atomic steps of one
    side, so what is proved about every run holds before, during and after them. */
module ChannelCalls {
  import opened MachineInts
  import opened SshBuffer
  import opened ChannelPeer
  import opened ChannelSystem

  /** Side A alone takes these steps, and none of them begins a read. */
  predicate OnlyA(steps: seq<(Side, Action)>) {
    forall i :: 0 <= i < |steps| ==> steps[i].0 == A && !steps[i].1.BeginRead?
  }

  lemma {:induction false} RunAppend(s: System, first: seq<(Side, Action)>, next: seq<(Side, Action)>)
    ensures Run(s, first + next) == Run(Run(s, first), next)
    decreases |first|
  {
    if first == [] {
      assert first + next == next;
    } else {
      assert (first + next)[1..] == first[1..] + next;
      RunAppend(Step(s, first[0].0, first[0].1), first[1..], next);
    }
  }

  /** The write loop, fed by what the other side has already sent, is a run. */
  lemma {:induction false} WriteIsRun(s: System) returns (steps: seq<(Side, Action)>)
    requires s.a.call.Writing? && AllFit(s.a.peer, s.fromB)
    ensures OnlyA(steps)
    ensures var r, t := WriteLoop(s.a.peer, s.a.call.left, s.fromB), Run(s, steps);
            && t.a.peer == r.peer && t.a.call == Writing(r.left)
            && r.taken <= |s.fromB|
            && t.fromA == s.fromA + r.sent && t.fromB == s.fromB[r.taken..]
            && t.b == s.b
    decreases |s.a.call.left| + |s.fromB|
  {
    var left := s.a.call.left;
    if left == [] || (s.a.peer.remoteWindow == 0 && s.fromB == []) {
      steps := [];
    } else {
      var act := if s.a.peer.remoteWindow == 0 then Parse else WriteStep;
      var s' := Step(s, A, act);
      var rest := WriteIsRun(s');
      steps := [(A, act)] + rest;
      assert steps[1..] == rest;
      if act == WriteStep {
        SendsThenLoop(s);
      } else {
        WaitsThenLoop(s);
      }
    }
  }

  /** A write begins exactly on a channel that has neither ended its stream nor been closed. */
  lemma WriteBeginsIff(s: System, data: seq<byte>)
    requires s.a.call.Idle?
    ensures var t := Step(s, A, BeginWrite(data));
            && t.b == s.b && t.fromB == s.fromB && t.fromA == s.fromA && t.a.peer == s.a.peer
            && (s.a.peer.localEof || !s.a.peer.open || s.a.peer.delayedClose ==> t.a == s.a)
            && (!s.a.peer.localEof && s.a.peer.open && !s.a.peer.delayedClose ==>
                  t.a.call == Writing(data) && t.a.accepted == s.a.accepted + data)
  {
    assert s.fromA + [] == s.fromA;
  }

  /** Ending the stream and closing the channel announce it and remember it. */
  lemma EndAndClose(s: System)
    requires s.a.call.Idle?
    ensures var t := Step(s, A, SendEof);
            t.a.peer == s.a.peer.(localEof := true) && t.fromA == s.fromA + [Eof]
    ensures var t := Step(s, A, CloseChannel);
            && t.a.peer == s.a.peer.(localEof := true, open := false)
            && t.fromA == s.fromA + if s.a.peer.localEof then [Close] else [Eof, Close]
  {}

  /** The write loop after it has sent a chunk. */
  lemma SendsThenLoop(s: System)
    requires s.a.call.Writing? && s.a.call.left != [] && s.a.peer.remoteWindow > 0
    ensures var s' := Step(s, A, WriteStep); var d := [Data(s.a.call.left[..ChunkLength(s.a.peer, |s.a.call.left|)])];
            && s'.a.call.Writing? && s'.fromA == s.fromA + d && s'.fromB == s.fromB && s'.b == s.b
            && var r, r' := WriteLoop(s.a.peer, s.a.call.left, s.fromB), WriteLoop(s'.a.peer, s'.a.call.left, s.fromB);
               r == r'.(sent := d + r'.sent) && s.fromA + d + r'.sent == s.fromA + r.sent
  {
    var d := [Data(s.a.call.left[..ChunkLength(s.a.peer, |s.a.call.left|)])];
    var s' := Step(s, A, WriteStep);
    var r' := WriteLoop(s'.a.peer, s'.a.call.left, s.fromB);
    assert s.fromA + d + r'.sent == s.fromA + (d + r'.sent);
  }

  /** The write loop after it has waited for a packet. */
  lemma WaitsThenLoop(s: System)
    requires s.a.call.Writing? && s.a.call.left != [] && s.a.peer.remoteWindow == 0 && s.fromB != []
    requires AllFit(s.a.peer, s.fromB)
    ensures var s' := Step(s, A, Parse);
            && s'.a.call == s.a.call && s'.fromA == s.fromA && s'.fromB == s.fromB[1..] && s'.b == s.b
            && var r, r' := WriteLoop(s.a.peer, s.a.call.left, s.fromB), WriteLoop(s'.a.peer, s'.a.call.left, s'.fromB);
               r == r'.(taken := 1 + r'.taken)
  {
  }

  function Parses(n: nat): (steps: seq<(Side, Action)>)
    ensures |steps| == n && forall i :: 0 <= i < n ==> steps[i] == (A, Parse)
  {
    seq(n, i => (A, Parse))
  }

  lemma {:induction false} ParsesRun(s: System, n: nat)
    requires n <= |s.fromB| && AllFit(s.a.peer, s.fromB)
    ensures Run(s, Parses(n)) == s.(a := s.a.(peer := ReceiveAll(s.a.peer, s.fromB[..n])), fromB := s.fromB[n..])
    decreases n
  {
    if n > 0 {
      assert Parses(n)[1..] == Parses(n - 1);
      assert s.fromB[..n][1..] == s.fromB[1..][..n - 1];
      ParsesRun(Step(s, A, Parse), n - 1);
    }
  }

  /** A read that finds enough packets on the link is a run: it begins, parses, and ends. */
  lemma ReadIsRun(s: System, count: u32, exact: bool)
    requires s.a.call.Idle? && (exact || count > 0)
    requires AllFit(s.a.peer, s.fromB)
    requires !MustWait(AfterWaiting(s.a.peer, count, exact, s.fromB), count, exact)
    ensures var q := AfterWaiting(s.a.peer, count, exact, s.fromB);
            var n := PacketsRead(EnterRead(s.a.peer, count), count, exact, s.fromB);
            var t := Run(s, [(A, BeginRead(count, exact))] + Parses(n) + [(A, EndRead)]);
            && t.a.peer == LeaveRead(q, count, exact) && t.a.call == Idle
            && t.a.delivered == s.a.delivered + LeaveReadBytes(q, count, exact)
            && t.a.sawEnd == (s.a.sawEnd || AtEnd(q))
            && t.fromA == s.fromA + EnterReadSends(s.a.peer, count) + LeaveReadSends(q)
            && t.fromB == s.fromB[n..] && t.b == s.b
  {
    var n := PacketsRead(EnterRead(s.a.peer, count), count, exact, s.fromB);
    var first, last := [(A, BeginRead(count, exact))], [(A, EndRead)];
    RunAppend(s, first + Parses(n), last);
    RunAppend(s, first, Parses(n));
    assert first[1..] == [] && last[1..] == [];
    var s1 := Run(s, first);
    ParsesRun(s1, n);
  }
}

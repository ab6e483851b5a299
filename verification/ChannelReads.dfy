/** What a call on a channel comes to, in terms of the bytes buffered before it and the packets that arrive. */
module ChannelReads {
  import opened MachineInts
  import opened SshBuffer
  import opened ChannelPeer

  lemma {:induction false} EndsAppend(ms: seq<Msg>, m: Msg)
    ensures AnnouncesEnd([m] + ms) <==> m == Eof || m == Close || AnnouncesEnd(ms)
  {
  }

  /** Packets add their payload and their increments, and may announce the end. */
  lemma {:induction false} Received(p: Peer, ms: seq<Msg>)
    ensures var q := ReceiveAll(p, ms);
            && q.buffered == p.buffered + Payload(ms)
            && q.remoteEof == (p.remoteEof || AnnouncesEnd(ms))
            && q.remoteWindow == ToU32(p.remoteWindow + Adjustments(ms))
    decreases |ms|
  {
    if ms == [] {
      assert p.buffered + Payload(ms) == p.buffered;
    } else {
      var q := Receive(p, ms[0]);
      assert ms == [ms[0]] + ms[1..];
      Received(q, ms[1..]);
      EndsAppend(ms[1..], ms[0]);
      var first := if ms[0].Data? then ms[0].payload else [];
      assert q.buffered == p.buffered + first;
      assert p.buffered + first + Payload(ms[1..]) == p.buffered + (first + Payload(ms[1..]));
      ToU32Add(p.remoteWindow + if ms[0].WindowAdjust? then ms[0].bytes else 0, Adjustments(ms[1..]));
    }
  }

  /** A read waits as long as it must and no longer. */
  lemma {:induction false} WaitsWhileItMust(p: Peer, count: u32, exact: bool, ms: seq<Msg>)
    ensures var n := PacketsRead(p, count, exact, ms);
            && (forall k :: 0 <= k < n ==> MustWait(ReceiveAll(p, ms[..k]), count, exact))
            && (n < |ms| ==> !MustWait(ReceiveAll(p, ms[..n]), count, exact))
    decreases |ms|
  {
    var n := PacketsRead(p, count, exact, ms);
    assert ms[..0] == [];
    if n > 0 {
      WaitsWhileItMust(Receive(p, ms[0]), count, exact, ms[1..]);
      forall k | 0 < k <= n ensures ReceiveAll(p, ms[..k]) == ReceiveAll(Receive(p, ms[0]), ms[1..][..k - 1]) {
        assert ms[..k][1..] == ms[1..][..k - 1];
      }
    }
  }

  /** The stream has ended, as far as packets up to the `n`th say. */
  predicate Ended(eof: bool, ms: seq<Msg>, n: nat)
    requires n <= |ms|
  {
    eof || Eof in ms[..n] || Close in ms[..n]
  }

  /** How many bytes there are to return after `n` packets. */
  function Arrived(buffered: seq<byte>, ms: seq<Msg>, n: nat): (k: nat)
    requires n <= |ms|
  {
    |buffered| + |Payload(ms[..n])|
  }

  /** The state in which a read stops waiting: it holds what arrived, it has waited only while the stream was
      open and there was too little, and it stops for lack of packets only if that is still so. */
  lemma StopsWaiting(p: Peer, count: u32, exact: bool, ms: seq<Msg>)
    ensures var n := PacketsRead(EnterRead(p, count), count, exact, ms);
            var q := AfterWaiting(p, count, exact, ms);
            && q.buffered == p.buffered + Payload(ms[..n])
            && q.remoteEof == Ended(p.remoteEof, ms, n)
            && (forall k :: 0 <= k < n ==> !Ended(p.remoteEof, ms, k))
            && (forall k :: 0 <= k < n ==> Arrived(p.buffered, ms, k) < if exact then Max(1, count) else 1)
            && (MustWait(q, count, exact) ==>
                  n == |ms| && !q.remoteEof && |q.buffered| < if exact then Max(1, count) else 1)
  {
    var e := EnterRead(p, count);
    var n := PacketsRead(e, count, exact, ms);
    WaitsWhileItMust(e, count, exact, ms);
    Received(e, ms[..n]);
    forall k | 0 <= k < n
      ensures !Ended(p.remoteEof, ms, k) && Arrived(p.buffered, ms, k) < if exact then Max(1, count) else 1
    {
      Received(e, ms[..k]);
    }
    if n < |ms| {
      assert !MustWait(ReceiveAll(e, ms[..n]), count, exact);
    }
  }

  /** What a read hands out. */
  lemma HandsOut(q: Peer, count: u32, exact: bool)
    requires !MustWait(q, count, exact) && (exact || count > 0)
    ensures var bytes, after := LeaveReadBytes(q, count, exact), LeaveRead(q, count, exact);
            && bytes + after.buffered == q.buffered && after.remoteEof == q.remoteEof
            && (count > 0 ==> |bytes| <= count && (|bytes| == count || after.buffered == []))
            && (count == 0 ==> after.buffered == [])
            && (bytes == [] ==> q.remoteEof && q.buffered == [])
            && (bytes != [] ==> after.localWindow >= WINDOW_LIMIT)
            && (exact && !q.remoteEof ==> |bytes| >= count)
  {
    if !AtEnd(q) {
      var k := ReadLength(q, count, exact);
      assert q.buffered[..k] + q.buffered[k..] == q.buffered;
      assert Increment(0) == WINDOW_BASE;
    }
  }

  // ----- writes

  /** Every packet of a write carries something, and it sends another one only after it has waited. */
  lemma {:induction false} FewPackets(p: Peer, bytes: seq<byte>, ms: seq<Msg>)
    ensures var r := WriteLoop(p, bytes, ms);
            && r.taken <= |ms|
            && |r.sent| <= r.taken + (if p.remoteWindow > 0 then 1 else 0)
            && forall m :: m in r.sent ==> m.Data? && m.payload != []
    decreases |bytes| + |ms|
  {
    if bytes == [] {
    } else if p.remoteWindow == 0 {
      if ms != [] {
        FewPackets(Receive(p, ms[0]), bytes, ms[1..]);
      }
    } else {
      FewPackets(SendChunk(p, |bytes|), bytes[ChunkLength(p, |bytes|)..], ms);
    }
  }

  /** What arrives while a write runs is buffered for the next read. */
  lemma {:induction false} WriteBuffers(p: Peer, bytes: seq<byte>, ms: seq<Msg>)
    ensures var r := WriteLoop(p, bytes, ms);
            && r.taken <= |ms|
            && r.peer.buffered == p.buffered + Payload(ms[..r.taken])
            && r.peer.remoteEof == Ended(p.remoteEof, ms, r.taken)
            && r.peer.localEof == p.localEof
    decreases |bytes| + |ms|
  {
    assert p.buffered + Payload(ms[..0]) == p.buffered;
    if bytes == [] {
    } else if p.remoteWindow == 0 {
      if ms != [] {
        WriteBuffers(Receive(p, ms[0]), bytes, ms[1..]);
        OneBefore(p, ms, WriteLoop(Receive(p, ms[0]), bytes, ms[1..]).taken);
      }
    } else {
      WriteBuffers(SendChunk(p, |bytes|), bytes[ChunkLength(p, |bytes|)..], ms);
    }
  }

  lemma OneBefore(p: Peer, ms: seq<Msg>, n: nat)
    requires ms != [] && n <= |ms[1..]|
    ensures Receive(p, ms[0]).buffered + Payload(ms[1..][..n]) == p.buffered + Payload(ms[..1 + n])
    ensures Ended(Receive(p, ms[0]).remoteEof, ms[1..], n) == Ended(p.remoteEof, ms, 1 + n)
  {
    var first := if ms[0].Data? then ms[0].payload else [];
    assert ms[..1 + n] == [ms[0]] + ms[1..][..n];
    assert Payload(ms[..1 + n]) == first + Payload(ms[1..][..n]);
    EndsAppend(ms[1..][..n], ms[0]);
    assert p.buffered + first + Payload(ms[1..][..n]) == p.buffered + (first + Payload(ms[1..][..n]));
    assert Receive(p, ms[0]).buffered == p.buffered + first;
  }
}

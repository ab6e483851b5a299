/** The channel object of libssh/channels.c, updated in place, for the stdout stream. Packets that
    the session parses while a call blocks are the parameter `incoming`; a call that needs one more
    than there are fails, as on a lost connection. Each method is proved against ChannelPeer. */
module Channel {
  import opened MachineInts
  import opened SshBuffer
  import opened ChannelPeer
  import opened ChannelReads

  const SSH_ERROR := -1

  class SshChannel {
    var localWindow: u32
    var remoteWindow: u32
    var localEof: bool
    var remoteEof: bool
    var open: bool
    var delayedClose: bool
    const stdout: Buffer
    /** The packets handed to the session, oldest first. */
    var sent: seq<Msg>

    ghost predicate Valid()
      reads this, stdout
    {
      stdout.Valid()
    }

    ghost function State(): Peer
      requires Valid()
      reads this, stdout, stdout.data
    {
      Peer(localWindow, remoteWindow, localEof, remoteEof, open, delayedClose, stdout.pos, stdout.Rest())
    }

    /** Only this object, its buffer and newly allocated memory change. */
    twostate predicate Framed()
      reads this, stdout
    {
      stdout.data == old(stdout.data) || fresh(stdout.data)
    }

    /** A channel as the open exchange leaves it. */
    constructor (local: u32, remote: u32)
      ensures Valid() && fresh(stdout) && fresh(stdout.data)
      ensures State() == Peer(local, remote, false, false, true, false, 0, [])
      ensures sent == []
    {
      localWindow, remoteWindow := local, remote;
      localEof, remoteEof, open, delayedClose := false, false, true, false;
      stdout := new Buffer();
      sent := [];
    }

    method GrowWindow(minimumSize: u32)
      requires Valid()
      modifies this`localWindow, this`sent
      ensures Valid() && State() == Grow(old(State()), minimumSize)
      ensures sent == old(sent) + [WindowAdjust(Increment(minimumSize))]
      ensures sent[|old(sent)|].bytes == if 128000 < minimumSize < 0x8000_0000 then minimumSize else 128000
    {
      var newWindow: u32 := if ToInt32(minimumSize) > WINDOW_BASE then ToInt32(minimumSize) else WINDOW_BASE;
      sent := sent + [WindowAdjust(newWindow)];
      localWindow := ToU32(localWindow + newWindow);
    }

    method RcvData(payload: seq<byte>)
      requires Valid() && Fits(State(), Data(payload))
      modifies this`localWindow, stdout, stdout.data
      ensures Valid() && Framed()
      ensures State() == Receive(old(State()), Data(payload))
      ensures State().buffered == old(State()).buffered + payload
      ensures localWindow == Max(0, old(localWindow) - |payload|)
    {
      stdout.AddData(payload);
      if |payload| <= localWindow {
        localWindow := localWindow - |payload|;
      } else {
        localWindow := 0;
      }
    }

    method RcvClose()
      requires Valid()
      modifies this`open, this`delayedClose, this`remoteEof
      ensures Valid() && State() == Receive(old(State()), Close)
      ensures remoteEof
      ensures if State().buffered == [] then !open && delayedClose == old(delayedClose)
              else delayedClose && open == old(open)
    {
      var n := stdout.GetRestLen();
      if n > 0 {
        delayedClose := true;
      } else {
        open := false;
      }
      remoteEof := true;
    }

    /** `channel_handle` */
    method Handle(m: Msg)
      requires Valid() && Fits(State(), m)
      modifies this, stdout, stdout.data
      ensures Valid() && Framed() && sent == old(sent)
      ensures State() == Receive(old(State()), m)
    {
      match m {
        case WindowAdjust(bytes) => remoteWindow := ToU32(remoteWindow + bytes);
        case Data(payload) => RcvData(payload);
        case Eof => remoteEof := true;
        case Close => RcvClose();
      }
    }

    method DoSendEof()
      requires Valid()
      modifies this`sent, this`localEof
      ensures Valid() && State() == old(State()).(localEof := true)
      ensures sent == old(sent) + [Eof]
    {
      sent := sent + [Eof];
      localEof := true;
    }

    method DoClose()
      requires Valid()
      modifies this`sent, this`localEof, this`open
      ensures Valid() && State() == old(State()).(localEof := true, open := false)
      ensures sent == old(sent) + CloseSends(old(State()))
      ensures sent == old(sent) + if old(localEof) then [Close] else [Eof, Close]
    {
      if !localEof {
        DoSendEof();
      }
      sent := sent + [Close];
      open := false;
    }

    /** `channel_write_common`; the length it returns is an `int`. On an open channel it sends its data in order, up
        to `left`, and takes `taken` packets: only when the window is used up does it wait, and only without packets
        does it stop. What arrives is kept for the next read. */
    method Write(data: seq<byte>, incoming: seq<Msg>) returns (rc: int, ghost left: seq<byte>, ghost taken: nat)
      requires Valid() && AllFit(State(), incoming) && |data| < U32_LIMIT
      modifies this, stdout, stdout.data
      ensures Valid() && Framed()
      ensures old(localEof || !open || delayedClose) ==> rc == SSH_ERROR && State() == old(State()) && sent == old(sent)
      ensures !old(localEof || !open || delayedClose) ==>
                var r := WriteLoop(old(State()), data, incoming);
                && State() == r.peer && left == r.left && taken == r.taken <= |incoming|
                && rc == (if left == [] then ToInt32(|data|) else SSH_ERROR)
                && old(sent) <= sent
                && Payload(sent[|old(sent)|..]) + left == data
                && (left != [] ==> taken == |incoming| && remoteWindow == 0)
                && |sent| - |old(sent)| <= taken + (if old(remoteWindow) > 0 then 1 else 0)
                && State().buffered == old(State()).buffered + Payload(incoming[..taken])
    {
      left, taken := data, 0;
      if localEof || !open || delayedClose {
        return SSH_ERROR, left, taken;
      }
      ghost var r := WriteLoop(State(), data, incoming);
      WriteLoopSendsInOrder(State(), data, incoming);
      FewPackets(State(), data, incoming);
      WriteBuffers(State(), data, incoming);
      ghost var before := sent;
      rc := SendAll(data, incoming);
      left, taken := r.left, r.taken;
      assert sent[|before|..] == r.sent;
    }

    /** The loop of `channel_write_common`. */
    method SendAll(data: seq<byte>, incoming: seq<Msg>) returns (rc: int)
      requires Valid() && AllFit(State(), incoming) && |data| < U32_LIMIT
      modifies this, stdout, stdout.data
      ensures Valid() && Framed()
      ensures var r := WriteLoop(old(State()), data, incoming);
              && State() == r.peer
              && sent == old(sent) + r.sent
              && rc == if r.left == [] then ToInt32(|data|) else SSH_ERROR
    {
      var len, rest, i := |data|, data, 0;
      ghost var r := WriteLoop(State(), data, incoming);
      ghost var goal := r.(sent := sent + r.sent);
      while len > 0
        invariant Valid() && Framed() && len == |rest| && i <= |incoming|
        invariant HasWritten(goal, State(), rest, incoming[i..], sent)
      {
        while remoteWindow == 0
          invariant Valid() && Framed() && i <= |incoming|
          invariant HasWritten(goal, State(), rest, incoming[i..], sent)
          decreases |incoming| - i
        {
          WriteWaits(goal, State(), rest, incoming[i..], sent);
          if i == |incoming| {
            return SSH_ERROR;
          }
          assert incoming[i..][1..] == incoming[i + 1..];
          Handle(incoming[i]);
          i := i + 1;
        }
        WriteSends(goal, State(), rest, incoming[i..], sent);
        var effective := if remoteWindow < len then remoteWindow else len;
        sent := sent + [Data(rest[..effective])];
        remoteWindow := remoteWindow - effective;
        len := len - effective;
        rest := rest[effective..];
      }
      return ToInt32(|data|);
    }

    /** What both read functions do before they wait. */
    method EnlargeFor(count: u32) returns (n: nat)
      requires Valid()
      modifies this`localWindow, this`sent
      ensures Valid() && n == |State().buffered|
      ensures State() == EnterRead(old(State()), count)
      ensures sent == old(sent) + EnterReadSends(old(State()), count)
    {
      n := stdout.GetRestLen();
      if count > ToU32(n + localWindow) {
        GrowWindow(ToU32(count - n));
      }
    }

    /** What both read functions do once they stop waiting. */
    method HandOut(count: u32, whole: bool) returns (bytes: seq<byte>)
      requires Valid() && !AtEnd(State())
      modifies this`localWindow, this`sent, stdout, stdout.data
      ensures Valid() && Framed()
      ensures State() == LeaveRead(old(State()), count, whole)
      ensures sent == old(sent) + LeaveReadSends(old(State()))
      ensures bytes == LeaveReadBytes(old(State()), count, whole)
    {
      if localWindow < WINDOW_LIMIT {
        GrowWindow(0);
      }
      bytes := Take(count, whole);
    }

    method Take(count: u32, whole: bool) returns (bytes: seq<byte>)
      requires Valid()
      modifies stdout, stdout.data
      ensures Valid() && Framed()
      ensures State() == Consume(old(State()), ReadLength(old(State()), count, whole))
      ensures bytes == old(State()).buffered[..ReadLength(old(State()), count, whole)]
    {
      bytes := stdout.GetRest();
      if whole && count == 0 {
        stdout.Reinit();
      } else {
        var len := if |bytes| > count then count else |bytes|;
        var _ := stdout.PassBytes(len);
        bytes := bytes[..len];
      }
    }

    /** What a read has done: `rc` is -1 exactly when it ran out of packets while it had to wait. */
    ghost predicate ReadDone(p: Peer, before: seq<Msg>, count: u32, exact: bool, incoming: seq<Msg>,
                             rc: int, bytes: seq<byte>)
      requires Valid()
      reads this, stdout, stdout.data
    {
      var q := AfterWaiting(p, count, exact, incoming);
      if MustWait(q, count, exact) then
        rc == SSH_ERROR && bytes == [] && State() == q && sent == before + EnterReadSends(p, count)
      else
        && bytes == LeaveReadBytes(q, count, exact) && rc == |bytes|
        && State() == LeaveRead(q, count, exact)
        && sent == before + EnterReadSends(p, count) + LeaveReadSends(q)
    }

    /** `channel_read_buffer`: waits for exactly `count` bytes, or for any when `count` is 0, and takes `taken`
        packets. It returns `count` bytes unless the stream has ended, everything there is for 0, and fails exactly
        if it runs out of packets before. */
    method ReadBuffer(count: u32, incoming: seq<Msg>) returns (rc: int, bytes: seq<byte>, ghost taken: nat)
      requires Valid() && AllFit(State(), incoming)
      modifies this, stdout, stdout.data
      ensures Valid() && Framed()
      ensures ReadDone(old(State()), old(sent), count, true, incoming, rc, bytes)
      ensures taken <= |incoming| && bytes + State().buffered == old(State()).buffered + Payload(incoming[..taken])
      ensures remoteEof == Ended(old(remoteEof), incoming, taken)
      ensures rc != SSH_ERROR ==> rc == |bytes|
      ensures rc != SSH_ERROR && count > 0 ==> rc <= count && (rc == count || (remoteEof && State().buffered == []))
      ensures rc != SSH_ERROR && count == 0 ==> State().buffered == [] && (rc == 0 ==> remoteEof)
      ensures rc == SSH_ERROR ==> bytes == [] && taken == |incoming| && !remoteEof
                                  && |State().buffered| < Max(1, count)
      ensures forall k :: 0 <= k < taken ==> !Ended(old(remoteEof), incoming, k)
      ensures forall k :: 0 <= k < taken ==> Arrived(old(State()).buffered, incoming, k) < Max(1, count)
      ensures rc > 0 ==> localWindow >= 64000
    {
      ghost var p := State();
      rc, bytes := FillBuffer(count, incoming);
      taken := PacketsRead(EnterRead(p, count), count, true, incoming);
      StopsWaiting(p, count, true, incoming);
      ghost var q := AfterWaiting(p, count, true, incoming);
      if !MustWait(q, count, true) {
        HandsOut(q, count, true);
      }
    }

    /** The body of `channel_read_buffer`. */
    method FillBuffer(count: u32, incoming: seq<Msg>) returns (rc: int, bytes: seq<byte>)
      requires Valid() && AllFit(State(), incoming)
      modifies this, stdout, stdout.data
      ensures Valid() && Framed()
      ensures ReadDone(old(State()), old(sent), count, true, incoming, rc, bytes)
    {
      var maxread: u32 := count;
      if count == 0 {
        maxread := MAX_PACKET_LEN;
      }
      var n := EnlargeFor(count);
      var i := 0;
      ghost var p, sent0 := State(), sent;
      while n == 0 || n < count
        invariant Valid() && Framed() && sent == sent0 && n == |State().buffered| && i <= |incoming|
        invariant HasTaken(p, count, true, incoming, State(), i)
        decreases |incoming| - i
      {
        if remoteEof && n == 0 {
          return 0, [];
        }
        if remoteEof {
          break;
        }
        if n >= maxread {
          break;
        }
        if i == |incoming| {
          return SSH_ERROR, [];
        }
        TakeOne(p, count, true, incoming, State(), i);
        Handle(incoming[i]);
        i := i + 1;
        n := stdout.GetRestLen();
      }
      bytes := HandOut(count, true);
      return |bytes|, bytes;
    }

    /** `channel_read`: waits for at least one byte and takes `taken` packets. It returns at most `count` bytes, fewer
        only if that is all there is, and fails exactly if it runs out of packets before there is any. */
    method Read(count: u32, incoming: seq<Msg>) returns (rc: int, bytes: seq<byte>, ghost taken: nat)
      requires Valid() && AllFit(State(), incoming)
      modifies this, stdout, stdout.data
      ensures Valid() && Framed()
      ensures count == 0 ==> rc == 0 && State() == old(State()) && sent == old(sent)
      ensures count > 0 ==> ReadDone(old(State()), old(sent), count, false, incoming, rc, bytes)
      ensures taken <= |incoming| && bytes + State().buffered == old(State()).buffered + Payload(incoming[..taken])
      ensures remoteEof == Ended(old(remoteEof), incoming, taken)
      ensures rc != SSH_ERROR ==> rc == |bytes| <= count && (rc == count || State().buffered == [])
      ensures rc == 0 && count > 0 ==> remoteEof
      ensures rc == SSH_ERROR ==> bytes == [] && taken == |incoming| && !remoteEof && State().buffered == []
      ensures forall k :: 0 <= k < taken ==> !Ended(old(remoteEof), incoming, k)
      ensures forall k :: 0 <= k < taken ==> Arrived(old(State()).buffered, incoming, k) == 0
      ensures rc > 0 ==> localWindow >= 64000
    {
      taken := 0;
      if count == 0 {
        return 0, [], taken;
      }
      ghost var p := State();
      rc, bytes := FillDest(count, incoming);
      taken := PacketsRead(EnterRead(p, count), count, false, incoming);
      StopsWaiting(p, count, false, incoming);
      ghost var q := AfterWaiting(p, count, false, incoming);
      if !MustWait(q, count, false) {
        HandsOut(q, count, false);
      }
    }

    /** The body of `channel_read` for a positive count. */
    method FillDest(count: u32, incoming: seq<Msg>) returns (rc: int, bytes: seq<byte>)
      requires Valid() && AllFit(State(), incoming) && count > 0
      modifies this, stdout, stdout.data
      ensures Valid() && Framed()
      ensures ReadDone(old(State()), old(sent), count, false, incoming, rc, bytes)
    {
      var n := EnlargeFor(count);
      var i := 0;
      ghost var p, sent0 := State(), sent;
      while n == 0 && count > 0
        invariant Valid() && Framed() && sent == sent0 && n == |State().buffered| && i <= |incoming|
        invariant HasTaken(p, count, false, incoming, State(), i)
        decreases |incoming| - i
      {
        if remoteEof && n == 0 {
          return 0, [];
        }
        if remoteEof {
          break;
        }
        if n >= count {
          break;
        }
        if i == |incoming| {
          return SSH_ERROR, [];
        }
        TakeOne(p, count, false, incoming, State(), i);
        Handle(incoming[i]);
        i := i + 1;
        n := stdout.GetRestLen();
      }
      bytes := HandOut(count, false);
      return |bytes|, bytes;
    }

    /** `channel_is_eof`: buffered bytes hide the end of file. */
    method IsEof() returns (eof: bool)
      requires Valid()
      ensures eof <==> remoteEof && State().buffered == []
    {
      var n := stdout.GetRestLen();
      if n > 0 {
        return false;
      }
      return remoteEof;
    }
  }
}

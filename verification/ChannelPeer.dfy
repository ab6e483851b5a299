/** One end of an SSH channel (libssh/channels.c) as a value: what each call does to the two
    windows, the end-of-file marks and the bytes buffered for the reader. */
module ChannelPeer {
  import opened MachineInts
  import opened SshBuffer

  const WINDOW_BASE := 128000
  const WINDOW_LIMIT := 64000
  const MAX_PACKET_LEN := 262144

  datatype Msg = WindowAdjust(bytes: u32) | Data(payload: seq<byte>) | Eof | Close

  /** The fields of `ssh_channel_struct` that carry data; the stdout buffer is given by the bytes
      already passed at its front and the bytes still to be read. */
  datatype Peer = Peer(localWindow: u32, remoteWindow: u32,
                       localEof: bool, remoteEof: bool,
                       open: bool, delayedClose: bool,
                       passed: nat, buffered: seq<byte>)

  // ----- receiving (channel_handle and the channel_rcv_ functions)

  /** The buffer can take the payload (`buffer_add_data` within the range of `int`). */
  predicate Fits(p: Peer, m: Msg) {
    m.Data? ==> p.passed + |p.buffered| + |m.payload| <= BUFFER_LIMIT
  }

  function Receive(p: Peer, m: Msg): Peer {
    match m
    case WindowAdjust(bytes) => p.(remoteWindow := ToU32(p.remoteWindow + bytes))
    case Data(payload) =>
      p.(buffered := p.buffered + payload,
         localWindow := if |payload| <= p.localWindow then p.localWindow - |payload| else 0)
    case Eof => p.(remoteEof := true)
    case Close =>
      if |p.buffered| > 0 then p.(delayedClose := true, remoteEof := true)
      else p.(open := false, remoteEof := true)
  }

  // ----- growing the window

  /** The increment `grow_window` announces; its parameter is an `int`. */
  function Increment(minimum: u32): u32 {
    if ToInt32(minimum) > WINDOW_BASE then ToInt32(minimum) else WINDOW_BASE
  }

  function Grow(p: Peer, minimum: u32): Peer {
    p.(localWindow := ToU32(p.localWindow + Increment(minimum)))
  }

  // ----- reading; `exact` selects channel_read_buffer, otherwise channel_read

  function AsksForMore(p: Peer, count: u32): bool {
    count > ToU32(|p.buffered| + p.localWindow)
  }

  /** Before its loop a read of more than fits enlarges the window. */
  function EnterRead(p: Peer, count: u32): Peer {
    if AsksForMore(p, count) then Grow(p, ToU32(count - |p.buffered|)) else p
  }

  function EnterReadSends(p: Peer, count: u32): seq<Msg> {
    if AsksForMore(p, count) then [WindowAdjust(Increment(ToU32(count - |p.buffered|)))] else []
  }

  /** The read goes on waiting for a packet. */
  predicate MustWait(p: Peer, count: u32, exact: bool) {
    !p.remoteEof && (p.buffered == [] || (exact && |p.buffered| < count))
  }

  /** The read reports the end of the stream. */
  predicate AtEnd(p: Peer) {
    p.remoteEof && p.buffered == []
  }

  function ReadLength(p: Peer, count: u32, exact: bool): nat {
    if exact && count == 0 then |p.buffered| else Min(|p.buffered|, count)
  }

  /** Consuming from the buffer: an emptied buffer starts over at its front. */
  function Consume(p: Peer, n: nat): Peer
    requires n <= |p.buffered|
  {
    p.(buffered := p.buffered[n..], passed := if n == |p.buffered| then 0 else p.passed + n)
  }

  /** After its loop a read refills a low window and hands out the bytes. */
  function LeaveRead(p: Peer, count: u32, exact: bool): Peer {
    if AtEnd(p) then p
    else Consume(if p.localWindow < WINDOW_LIMIT then Grow(p, 0) else p, ReadLength(p, count, exact))
  }

  function LeaveReadSends(p: Peer): seq<Msg> {
    if !AtEnd(p) && p.localWindow < WINDOW_LIMIT then [WindowAdjust(Increment(0))] else []
  }

  function LeaveReadBytes(p: Peer, count: u32, exact: bool): seq<byte> {
    if AtEnd(p) then [] else p.buffered[..ReadLength(p, count, exact)]
  }

  // ----- writing

  predicate WriteAllowed(p: Peer) {
    !p.localEof && p.open && !p.delayedClose
  }

  /** How much of `len` bytes one packet of the write loop carries; 0 means it waits. */
  function ChunkLength(p: Peer, len: nat): nat {
    if p.remoteWindow < len then p.remoteWindow else len
  }

  function SendChunk(p: Peer, len: nat): Peer {
    p.(remoteWindow := p.remoteWindow - ChunkLength(p, len))
  }

  // ----- end of file and close

  function CloseSends(p: Peer): seq<Msg> {
    (if p.localEof then [] else [Eof]) + [Close]
  }

  // ----- many packets in a row

  /** The buffer can take everything that `ms` carry. */
  predicate AllFit(p: Peer, ms: seq<Msg>) {
    p.passed + |p.buffered| + |Payload(ms)| <= BUFFER_LIMIT
  }

  function ReceiveAll(p: Peer, ms: seq<Msg>): Peer
    decreases |ms|
  {
    if ms == [] then p else ReceiveAll(Receive(p, ms[0]), ms[1..])
  }

  /** How many of the packets that arrive a waiting read takes. */
  function PacketsRead(p: Peer, count: u32, exact: bool, ms: seq<Msg>): (n: nat)
    ensures n <= |ms|
    decreases |ms|
  {
    if ms == [] || !MustWait(p, count, exact) then 0
    else 1 + PacketsRead(Receive(p, ms[0]), count, exact, ms[1..])
  }

  /** The peer when a read stops waiting: the window enlarged, the packets it waited for parsed. */
  function AfterWaiting(p: Peer, count: u32, exact: bool, ms: seq<Msg>): Peer {
    var q := EnterRead(p, count);
    ReceiveAll(q, ms[..PacketsRead(q, count, exact, ms)])
  }

  /** From `p`, a waiting read has parsed the first `i` packets of `ms` and come to `q`. */
  ghost predicate HasTaken(p: Peer, count: u32, exact: bool, ms: seq<Msg>, q: Peer, i: nat) {
    && i <= |ms|
    && q == ReceiveAll(p, ms[..i])
    && PacketsRead(p, count, exact, ms) == i + PacketsRead(q, count, exact, ms[i..])
    && AllFit(q, ms[i..])
  }

  lemma TakeOne(p: Peer, count: u32, exact: bool, ms: seq<Msg>, q: Peer, i: nat)
    requires HasTaken(p, count, exact, ms, q, i) && i < |ms|
    ensures Fits(q, ms[i])
    ensures MustWait(q, count, exact) ==> HasTaken(p, count, exact, ms, Receive(q, ms[i]), i + 1)
  {
    assert ms[i..][1..] == ms[i + 1..];
    ReceiveAllOneMore(p, ms, i);
  }

  lemma {:induction false} ReceiveAllOneMore(p: Peer, ms: seq<Msg>, i: nat)
    requires i < |ms|
    ensures ReceiveAll(p, ms[..i + 1]) == Receive(ReceiveAll(p, ms[..i]), ms[i])
    decreases i
  {
    if i == 0 {
      assert ms[..1][1..] == [];
    } else {
      assert ms[..i + 1][1..] == ms[1..][..i] && ms[..i][1..] == ms[1..][..i - 1];
      ReceiveAllOneMore(Receive(p, ms[0]), ms[1..], i - 1);
    }
  }

  /** What a write leaves behind when `ms` arrive while it runs. */
  datatype WriteResult = WriteResult(peer: Peer, sent: seq<Msg>, left: seq<byte>, taken: nat)

  function WriteLoop(p: Peer, bytes: seq<byte>, ms: seq<Msg>): (r: WriteResult)
    decreases |bytes| + |ms|
  {
    if bytes == [] then WriteResult(p, [], [], 0)
    else if p.remoteWindow == 0 then
      if ms == [] then WriteResult(p, [], bytes, 0)
      else
        var r := WriteLoop(Receive(p, ms[0]), bytes, ms[1..]);
        r.(taken := 1 + r.taken)
    else
      var n := ChunkLength(p, |bytes|);
      var r := WriteLoop(SendChunk(p, |bytes|), bytes[n..], ms);
      r.(sent := [Data(bytes[..n])] + r.sent)
  }

  /** A write that should end as `goal` stands at `q` with `left` to write and `ms` to come, having
      sent `sent`. */
  ghost predicate HasWritten(goal: WriteResult, q: Peer, left: seq<byte>, ms: seq<Msg>, sent: seq<Msg>) {
    var r := WriteLoop(q, left, ms);
    r.peer == goal.peer && r.left == goal.left && sent + r.sent == goal.sent && AllFit(q, ms)
  }

  lemma WriteWaits(goal: WriteResult, q: Peer, left: seq<byte>, ms: seq<Msg>, sent: seq<Msg>)
    requires HasWritten(goal, q, left, ms, sent) && left != [] && q.remoteWindow == 0
    ensures ms == [] ==> q == goal.peer && left == goal.left && sent == goal.sent
    ensures ms != [] ==> Fits(q, ms[0]) && HasWritten(goal, Receive(q, ms[0]), left, ms[1..], sent)
  {}

  lemma WriteSends(goal: WriteResult, q: Peer, left: seq<byte>, ms: seq<Msg>, sent: seq<Msg>)
    requires HasWritten(goal, q, left, ms, sent) && left != [] && q.remoteWindow > 0
    ensures var n := ChunkLength(q, |left|);
            HasWritten(goal, SendChunk(q, |left|), left[n..], ms, sent + [Data(left[..n])])
  {
    var n := ChunkLength(q, |left|);
    var r := WriteLoop(SendChunk(q, |left|), left[n..], ms);
    assert sent + [Data(left[..n])] + r.sent == sent + ([Data(left[..n])] + r.sent);
  }

  // ----- what a link carries

  /** The stream bytes in a sequence of messages. */
  function Payload(ms: seq<Msg>): seq<byte> {
    if ms == [] then [] else (if ms[0].Data? then ms[0].payload else []) + Payload(ms[1..])
  }

  /** The window increments in a sequence of messages. */
  function Adjustments(ms: seq<Msg>): nat {
    if ms == [] then 0 else (if ms[0].WindowAdjust? then ms[0].bytes else 0) + Adjustments(ms[1..])
  }

  /** Once the end of the stream is announced no data follows. */
  predicate NoDataAfterEnd(ms: seq<Msg>) {
    ms == [] || (if ms[0].Eof? || ms[0].Close? then Payload(ms) == [] else NoDataAfterEnd(ms[1..]))
  }

  predicate AnnouncesEnd(ms: seq<Msg>) {
    Eof in ms || Close in ms
  }

  lemma {:induction false} PayloadAppend(ms: seq<Msg>, ns: seq<Msg>)
    ensures Payload(ms + ns) == Payload(ms) + Payload(ns)
    ensures Adjustments(ms + ns) == Adjustments(ms) + Adjustments(ns)
  {
    if ms == [] {
      assert ms + ns == ns;
    } else {
      assert (ms + ns)[1..] == ms[1..] + ns;
      PayloadAppend(ms[1..], ns);
    }
  }

  lemma {:induction false} PayloadOne(m: Msg)
    ensures Payload([m]) == if m.Data? then m.payload else []
    ensures Adjustments([m]) == if m.WindowAdjust? then m.bytes else 0
  {
    assert [m][1..] == [];
  }

  lemma {:induction false} NoPayloadNoData(ms: seq<Msg>)
    requires Payload(ms) == []
    ensures NoDataAfterEnd(ms)
  {
    if ms != [] {
      NoPayloadNoData(ms[1..]);
    }
  }

  /** Data may follow on a link that has not announced its end; anything else may always follow. */
  lemma {:induction false} EndAppend(ms: seq<Msg>, ns: seq<Msg>)
    requires NoDataAfterEnd(ms) && NoDataAfterEnd(ns)
    requires AnnouncesEnd(ms) ==> Payload(ns) == []
    ensures NoDataAfterEnd(ms + ns)
  {
    PayloadAppend(ms, ns);
    if ms == [] {
      assert ms + ns == ns;
    } else {
      assert (ms + ns)[1..] == ms[1..] + ns;
      if !ms[0].Eof? && !ms[0].Close? {
        EndAppend(ms[1..], ns);
      }
    }
  }

  /** Whatever arrives while it runs, a write never loses, repeats or reorders a byte, and never
      sends more than the windows it was granted, as long as those do not wrap around. */
  ghost predicate SendsInOrder(p: Peer, bytes: seq<byte>, ms: seq<Msg>, r: WriteResult) {
    && r.taken <= |ms|
    && Payload(r.sent) + r.left == bytes
    && (p.remoteWindow + Adjustments(ms) < U32_LIMIT ==>
          r.peer.remoteWindow + |Payload(r.sent)| == p.remoteWindow + Adjustments(ms[..r.taken]))
    && (r.left != [] ==> r.taken == |ms| && r.peer.remoteWindow == 0)
  }

  lemma {:induction false} WriteLoopSendsInOrder(p: Peer, bytes: seq<byte>, ms: seq<Msg>)
    ensures SendsInOrder(p, bytes, ms, WriteLoop(p, bytes, ms))
    decreases |bytes| + |ms|
  {
    if bytes == [] {
    } else if p.remoteWindow == 0 {
      if ms != [] {
        WriteLoopSendsInOrder(Receive(p, ms[0]), bytes, ms[1..]);
        TakeFirst(p, bytes, ms, WriteLoop(Receive(p, ms[0]), bytes, ms[1..]));
      }
    } else {
      var n := ChunkLength(p, |bytes|);
      WriteLoopSendsInOrder(SendChunk(p, |bytes|), bytes[n..], ms);
      SendFirst(p, bytes, ms, WriteLoop(SendChunk(p, |bytes|), bytes[n..], ms));
    }
  }

  lemma SendFirst(p: Peer, bytes: seq<byte>, ms: seq<Msg>, r: WriteResult)
    requires 0 < p.remoteWindow
    requires SendsInOrder(SendChunk(p, |bytes|), bytes[ChunkLength(p, |bytes|)..], ms, r)
    ensures SendsInOrder(p, bytes, ms, r.(sent := [Data(bytes[..ChunkLength(p, |bytes|)])] + r.sent))
  {
    var n := ChunkLength(p, |bytes|);
    PayloadAppend([Data(bytes[..n])], r.sent);
    PayloadOne(Data(bytes[..n]));
    assert bytes == bytes[..n] + bytes[n..];
  }

  lemma TakeFirst(p: Peer, bytes: seq<byte>, ms: seq<Msg>, r: WriteResult)
    requires ms != []
    requires SendsInOrder(Receive(p, ms[0]), bytes, ms[1..], r)
    ensures SendsInOrder(p, bytes, ms, r.(taken := 1 + r.taken))
  {
    AdjustmentsFirst(ms, r.taken);
    if p.remoteWindow + Adjustments(ms) < U32_LIMIT {
      ReceiveWindow(p, ms[0]);
    }
  }

  lemma ReceiveWindow(p: Peer, m: Msg)
    requires p.remoteWindow + Adjustments([m]) < U32_LIMIT
    ensures Receive(p, m).remoteWindow == p.remoteWindow + Adjustments([m])
  {
    PayloadOne(m);
  }

  lemma AdjustmentsFirst(ms: seq<Msg>, k: nat)
    requires k < |ms|
    ensures Adjustments(ms[..1 + k]) == Adjustments([ms[0]]) + Adjustments(ms[1..][..k])
    ensures Adjustments(ms) == Adjustments([ms[0]]) + Adjustments(ms[1..])
  {
    PayloadOne(ms[0]);
    assert ms[..1 + k] == [ms[0]] + ms[1..][..k];
    PayloadAppend([ms[0]], ms[1..][..k]);
  }

  /** The exact case in which entering a read makes room for all it asks for: it fails only for
      sizes that `grow_window` sees as a negative `int`. */
  lemma EnterReadMakesRoom(p: Peer, count: u32)
    requires |p.buffered| <= BUFFER_LIMIT && |p.buffered| + p.localWindow < U32_LIMIT
    ensures var q := EnterRead(p, count);
            |q.buffered| + q.localWindow >= count
            <==> (|| count <= |p.buffered| + p.localWindow
                  || count - |p.buffered| < I32_LIMIT
                  || (count <= |p.buffered| + p.localWindow + WINDOW_BASE
                      && p.localWindow + WINDOW_BASE < U32_LIMIT))
  {
    if AsksForMore(p, count) {
      assert ToU32(count - |p.buffered|) == count - |p.buffered|;
    }
  }
}

/** Two peers running libssh/channels.c over two reliable first-in first-out links. A run is a
    sequence of atomic steps: a call begins or ends, a write loop sends one packet, a packet is
    parsed. The invariants tie both windows, both buffers and everything in flight together. */
module ChannelSystem {
  import opened MachineInts
  import opened SshBuffer
  import opened ChannelPeer

  /** Where the single thread of an endpoint stands. */
  datatype Call = Idle | Writing(left: seq<byte>) | Reading(count: u32, exact: bool)

  /** An endpoint with its history: bytes accepted from callers of write, bytes put on the link,
      bytes returned by reads, and whether a read has reported the end of the stream. */
  datatype Node = Node(peer: Peer, call: Call, accepted: seq<byte>, written: seq<byte>,
                       delivered: seq<byte>, sawEnd: bool)

  datatype Action =
    | BeginWrite(data: seq<byte>)
    | WriteStep
    | BeginRead(count: u32, exact: bool)
    | EndRead
    | SendEof
    | CloseChannel
    | Parse

  /** `out` is what the node's side has sent and the other side has not parsed yet. */
  datatype System = System(a: Node, b: Node, fromA: seq<Msg>, fromB: seq<Msg>)

  datatype Side = A | B

  // ----- the steps of one endpoint

  function Act(n: Node, act: Action): Node
    requires act != Parse
  {
    match act
    case BeginWrite(data) =>
      if n.call.Idle? && WriteAllowed(n.peer)
      then n.(call := Writing(data), accepted := n.accepted + data) else n
    case WriteStep =>
      if !n.call.Writing? then n
      else if n.call.left == [] then n.(call := Idle)
      else
        var k := ChunkLength(n.peer, |n.call.left|);
        n.(peer := SendChunk(n.peer, |n.call.left|), call := Writing(n.call.left[k..]),
           written := n.written + n.call.left[..k])
    case BeginRead(count, exact) =>
      if n.call.Idle? && (exact || count > 0)
      then n.(peer := EnterRead(n.peer, count), call := Reading(count, exact)) else n
    case EndRead =>
      if n.call.Reading? && !MustWait(n.peer, n.call.count, n.call.exact)
      then n.(peer := LeaveRead(n.peer, n.call.count, n.call.exact), call := Idle,
              delivered := n.delivered + LeaveReadBytes(n.peer, n.call.count, n.call.exact),
              sawEnd := n.sawEnd || AtEnd(n.peer)) else n
    case SendEof => if n.call.Idle? then n.(peer := n.peer.(localEof := true)) else n
    case CloseChannel =>
      if n.call.Idle? then n.(peer := n.peer.(localEof := true, open := false)) else n
  }

  function Sends(n: Node, act: Action): seq<Msg>
    requires act != Parse
  {
    match act
    case WriteStep =>
      if !n.call.Writing? then []
      else
        var k := ChunkLength(n.peer, |n.call.left|);
        if k == 0 then [] else [Data(n.call.left[..k])]
    case BeginRead(count, exact) =>
      if n.call.Idle? && (exact || count > 0) then EnterReadSends(n.peer, count) else []
    case EndRead =>
      if n.call.Reading? && !MustWait(n.peer, n.call.count, n.call.exact)
      then LeaveReadSends(n.peer) else []
    case SendEof => if n.call.Idle? then [Eof] else []
    case CloseChannel => if n.call.Idle? then CloseSends(n.peer) else []
    case _ => []
  }

  function StepA(s: System, act: Action): System {
    if act != Parse then s.(a := Act(s.a, act), fromA := s.fromA + Sends(s.a, act))
    else if s.fromB != [] && Fits(s.a.peer, s.fromB[0])
    then s.(a := s.a.(peer := Receive(s.a.peer, s.fromB[0])), fromB := s.fromB[1..])
    else s
  }

  function Swap(s: System): System {
    System(s.b, s.a, s.fromB, s.fromA)
  }

  function Step(s: System, side: Side, act: Action): System {
    if side == A then StepA(s, act) else Swap(StepA(Swap(s), act))
  }

  function Run(s: System, steps: seq<(Side, Action)>): System
    decreases |steps|
  {
    if steps == [] then s else Run(Step(s, steps[0].0, steps[0].1), steps[1..])
  }

  /** A freshly opened channel: the windows each side announced in the open exchange. */
  function Opened(windowA: u32, windowB: u32): System {
    System(
      Node(Peer(windowA, windowB, false, false, true, false, 0, []), Idle, [], [], [], false),
      Node(Peer(windowB, windowA, false, false, true, false, 0, []), Idle, [], [], [], false),
      [], [])
  }

  const CLIENT_WINDOW: u32 := 64000
  const SERVER_WINDOW: u32 := 32000

  /** Every read asks for at most `most` bytes. */
  predicate ReadsAtMost(steps: seq<(Side, Action)>, most: u32) {
    forall i :: 0 <= i < |steps| && steps[i].1.BeginRead? ==> steps[i].1.count <= most
  }

  // ----- the invariant, one direction at a time: `n` sends along `out`, `m` receives from it and
  // answers along `back`

  ghost predicate Windows(n: Node, m: Node, out: seq<Msg>, back: seq<Msg>) {
    n.peer.remoteWindow + |Payload(out)| + Adjustments(back) == m.peer.localWindow
  }

  ghost predicate Stream(n: Node, m: Node, out: seq<Msg>) {
    && n.accepted == n.written + (if n.call.Writing? then n.call.left else [])
    && n.written == m.delivered + m.peer.buffered + Payload(out)
  }

  ghost predicate Ending(n: Node, m: Node, out: seq<Msg>) {
    && NoDataAfterEnd(out)
    && (AnnouncesEnd(out) || m.peer.remoteEof <==> n.peer.localEof)
    && (n.peer.localEof ==> !n.call.Writing?)
    && (m.peer.remoteEof ==> Payload(out) == [])
    && (m.sawEnd ==> AtEnd(m.peer))
  }

  /** The receiving window of `m`, when no read asks for more than `most` bytes. */
  ghost predicate Room(m: Node, most: u32) {
    && m.peer.localWindow <= 2 * Max(WINDOW_BASE, most)
    && |m.peer.buffered| + m.peer.passed <= BUFFER_LIMIT
    && m.peer.localWindow + |m.peer.buffered| < U32_LIMIT
    && m.peer.localWindow + |m.peer.buffered| >= SERVER_WINDOW
    && (m.call.Reading? ==> m.peer.localWindow + |m.peer.buffered| >= m.call.count)
  }

  ghost predicate Direction(n: Node, m: Node, out: seq<Msg>, back: seq<Msg>, most: u32) {
    Windows(n, m, out, back) && Stream(n, m, out) && Ending(n, m, out) && Room(m, most)
  }

  ghost predicate Inv(s: System, most: u32) {
    && Direction(s.a, s.b, s.fromA, s.fromB, most)
    && Direction(s.b, s.a, s.fromB, s.fromA, most)
  }
}

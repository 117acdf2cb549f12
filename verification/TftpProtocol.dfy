/**
 The TFTP read protocol (section 2 of RFC 1350, options of RFC 2347 to 2349) between the client of
 netboot/fsys_tftp.c and an honest server, over a network that may lose, duplicate and reorder
 packets.  A run is a sequence of events chosen by the environment; every claim is about all of them.
 */
module TftpProtocol {

  const DEFAULT_SIZE: nat := 512     // TFTP_DEFAULTSIZE_PACKET
  const MAX_PACKET: nat := 1432      // TFTP_MAX_PACKET
  const MAX_RETRIES: nat := 20       // MAX_TFTP_RETRIES

  type byte = b: int | 0 <= b < 0x100
  type File = seq<byte>

  // ---------- The server's file, cut into blocks

  function Upto(f: File, n: nat): nat {
    if n <= |f| then n else |f|
  }

  /** The bytes of the first `k` blocks. */
  function Prefix(f: File, size: nat, k: nat): seq<byte> {
    f[..Upto(f, k * size)]
  }

  /** Block `j`, counting from one; the last one is short, and may be empty. */
  function Chunk(f: File, size: nat, j: nat): seq<byte>
    requires j >= 1
  {
    ChunkGrows(size, j);
    f[Upto(f, (j - 1) * size)..Upto(f, j * size)]
  }

  lemma ChunkGrows(size: nat, j: nat)
    requires j >= 1
    ensures 0 <= (j - 1) * size && j * size == (j - 1) * size + size
  {
  }

  /** How many blocks a transfer has: the last one is always shorter than the others. */
  function Blocks(f: File, size: nat): nat
    requires size >= 1
  {
    |f| / size + 1
  }

  lemma PrefixThenChunk(f: File, size: nat, k: nat)
    ensures Prefix(f, size, k) + Chunk(f, size, k + 1) == Prefix(f, size, k + 1)
  {
    ChunkGrows(size, k + 1);
  }

  /** A block is short exactly when it is the last, and then nothing is missing. */
  lemma ShortExactlyLast(f: File, size: nat, j: nat)
    requires size >= 1 && 1 <= j <= Blocks(f, size)
    ensures |Chunk(f, size, j)| <= size
    ensures |Chunk(f, size, j)| < size <==> j == Blocks(f, size)
    ensures j == Blocks(f, size) ==> Prefix(f, size, j) == f
  {
    ChunkGrows(size, j);
    var q := |f| / size;
    assert q * size <= |f| < q * size + size;
    if j <= q {
      assert j * size <= q * size by { MulMonotone(j, q, size); }
    } else {
      assert j == q + 1 && (j - 1) * size == q * size;
    }
  }

  lemma MulMonotone(a: nat, b: nat, c: nat)
    requires a <= b
    ensures a * c <= b * c
  {
  }

  // ---------- Packets, sessions and the network

  datatype OackOption = BlkSize(n: int) | TSize(n: int) | Unknown

  datatype Packet =
    | Data(block: nat, payload: seq<byte>)
    | Oack(length: nat, options: seq<OackOption>)
    | Error
    | OtherOpcode

  /** One transfer at the server.  `sent` is the highest block sent so far, unbounded although only
      its low 16 bits travel; a session that acknowledges options starts at 0. */
  datatype Session = Session(blksize: nat, oack: bool, sent: nat)

  /** Everything that was ever sent stays here, so a packet may arrive late, twice or never.
      A port of the client names a session. */
  datatype Net = Net(requests: set<nat>, sessions: map<nat, Session>,
                     inbox: set<(nat, Packet)>, acks: set<(nat, nat)>)

  datatype ServerEvent =
    | OpenPlain(port: nat)
    | OpenWithOptions(port: nat, blksize: nat, length: nat, options: seq<OackOption>)
    | Respond(port: nat, ack: nat)

  /** The options a server may acknowledge: a block size it will use, and the true file size. */
  predicate Honest(f: File, blksize: nat, options: seq<OackOption>) {
    && 8 <= blksize <= MAX_PACKET
    && (forall i :: 0 <= i < |options| ==>
          match options[i] case BlkSize(n) => n == blksize case TSize(n) => n == |f| case Unknown => false)
    && (blksize == DEFAULT_SIZE || exists i :: 0 <= i < |options| && options[i] == BlkSize(blksize))
  }

  function Deliver16(f: File, blksize: nat, j: nat): Packet
    requires j >= 1
  {
    Data(j % 0x1_0000, Chunk(f, blksize, j))
  }

  /** The server answers a request it has seen, and sends the next block when the last one it sent
      is acknowledged; an event that is not possible changes nothing. */
  function Serve(f: File, net: Net, e: ServerEvent): Net {
    match e
    case OpenPlain(p) =>
      if p in net.requests && p !in net.sessions then
        net.(sessions := net.sessions[p := Session(DEFAULT_SIZE, false, 1)],
             inbox := net.inbox + {(p, Deliver16(f, DEFAULT_SIZE, 1))})
      else net
    case OpenWithOptions(p, blksize, length, options) =>
      if p in net.requests && p !in net.sessions && Honest(f, blksize, options) then
        net.(sessions := net.sessions[p := Session(blksize, true, 0)],
             inbox := net.inbox + {(p, Oack(length, options))})
      else net
    case Respond(p, ack) =>
      if p in net.sessions && (p, ack) in net.acks then
        var s := net.sessions[p];
        if s.blksize >= 1 && s.sent % 0x1_0000 == ack && s.sent < Blocks(f, s.blksize) then
          net.(sessions := net.sessions[p := s.(sent := s.sent + 1)],
               inbox := net.inbox + {(p, Deliver16(f, s.blksize, s.sent + 1))})
        else net
      else net
  }

  // ---------- The client

  /** What the transmit buffer `tp` holds. */
  datatype Outgoing = Request | Ack(block: nat) | Complaint

  /** The client's variables.  `received` is everything `buf_fill` has appended to the buffer in this
      session, and `closed` says that the client has told the server to stop. */
  datatype Client = Client(iport: nat, block: nat, prevblock: nat, bcounter: nat, packetsize: int,
                           retry: nat, eof: bool, tp: Outgoing, filemax: int,
                           received: seq<byte>, closed: bool)

  datatype Action = Acked(block: nat) | Ignored | Refused | Aborted | Failed | Stopped

  /** The option loop of `buf_fill`: takes the options in turn, gives up at a bad one. */
  function Negotiate(packetsize: int, filemax: int, options: seq<OackOption>): (int, int, bool)
    decreases |options|
  {
    if options == [] then (packetsize, filemax, true)
    else
      match options[0]
      case BlkSize(n) => if n < DEFAULT_SIZE then (n, filemax, false) else Negotiate(n, filemax, options[1..])
      case TSize(n) => if n < 0 then (packetsize, -1, false) else Negotiate(packetsize, n, options[1..])
      case Unknown => (packetsize, filemax, false)
  }

  /** Lines 205 to 251: decide which block to acknowledge, acknowledge it, store it if it is new. */
  function Answer(c: Client, wire: nat, payload: seq<byte>, abort: bool): (Client, Action) {
    var blk := if (wire != 0 || c.bcounter != 0) && wire != c.prevblock + 1 then c.prevblock else wire;
    var c1 := c.(block := blk, tp := if abort then Complaint else Ack(blk));
    if abort then (c1.(eof := true, closed := true), Aborted)
    else if (blk - c.prevblock) % 0x1_0000 != 1 then (c1, Acked(blk))
    else
      (c1.(prevblock := blk, retry := 0, bcounter := c.bcounter + 1,
           received := c.received + payload, eof := c.eof || |payload| < c.packetsize), Acked(blk))
  }

  /** One packet: lines 103 to 251. */
  function Receive(c: Client, pkt: Packet, abort: bool): (Client, Action) {
    match pkt
    case Error => (c, Failed)
    case OtherOpcode => (c, Stopped)
    case Oack(length, options) =>
      if c.prevblock != 0 then (c, Ignored)
      else if length > MAX_PACKET then (c.(tp := Complaint), Refused)
      else
        var (packetsize, filemax, ok) := Negotiate(c.packetsize, c.filemax, options);
        var c1 := c.(packetsize := packetsize, filemax := filemax);
        if !ok then (c1.(tp := Complaint), Refused) else Answer(c1, 0, [], abort)
    case Data(block, payload) =>
      if |payload| > c.packetsize then (c, Ignored) else Answer(c, block, payload, abort)
  }

  /** No reply came: before the first block the request is sent again, from a new port. */
  function TimeOut(c: Client): (Client, bool) {
    if c.block == 0 then
      var c1 := c.(retry := c.retry + 1);
      if c.retry < MAX_RETRIES then (c1.(iport := c.iport + 1), true) else (c1, false)
    else (c, false)
  }

  /** `send_rrq`. */
  function Reopened(c: Client): Client {
    c.(iport := c.iport + 1, block := 0, prevblock := 0, bcounter := 0, packetsize := DEFAULT_SIZE,
       retry := 0, eof := false, tp := Request, received := [], closed := false)
  }

  // ---------- Client, server and network together

  datatype System = System(client: Client, net: Net)

  datatype Event =
    | ServerStep(e: ServerEvent)
    | Arrival(pkt: Packet, abort: bool)
    | Timeout(linkUp: bool)
    | Open(linkUp: bool)
    | SetFileMax(n: int)

  /** What may arrive: a packet sent to this port, or a packet that says nothing about the file. */
  predicate Deliverable(net: Net, port: nat, pkt: Packet) {
    pkt.Error? || pkt.OtherOpcode? || (port, pkt) in net.inbox
  }

  function Requested(net: Net, c: Client, linkUp: bool): Net {
    if linkUp && c.tp.Request? then net.(requests := net.requests + {c.iport}) else net
  }

  /** One event of a run; an event that is not possible changes nothing. */
  function Step(f: File, s: System, e: Event): System {
    match e
    case ServerStep(se) => s.(net := Serve(f, s.net, se))
    case Arrival(pkt, abort) =>
      if s.client.eof || !Deliverable(s.net, s.client.iport, pkt) then s
      else
        var (c, action) := Receive(s.client, pkt, abort);
        System(c, if action.Acked? then s.net.(acks := s.net.acks + {(c.iport, action.block)}) else s.net)
    case Timeout(linkUp) =>
      if s.client.eof then s
      else
        var (c, again) := TimeOut(s.client);
        System(c, if again then Requested(s.net, c, linkUp) else s.net)
    case Open(linkUp) =>
      var c := Reopened(s.client);
      System(c, Requested(s.net, c, linkUp))
    case SetFileMax(n) => s.(client := s.client.(filemax := n))
  }

  function Run(f: File, s: System, events: seq<Event>): System
    decreases |events|
  {
    if events == [] then s else Step(f, Run(f, s, events[..|events| - 1]), events[|events| - 1])
  }

  /** Nothing has been sent; the static variables of the C file are zero. */
  const Start: System :=
    System(Client(2000, 0, 0, 0, DEFAULT_SIZE, 0, false, Complaint, 0, [], true), Net({}, map[], {}, {}))
}

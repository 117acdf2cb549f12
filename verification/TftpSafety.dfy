/** What holds in every state of every run of the TFTP read protocol. */
module TftpSafety {
  import opened TftpProtocol

  // ---------- The invariant

  /** Ports are taken in increasing order, so nothing has happened yet above the current one. */
  ghost predicate PortsInOrder(s: System) {
    var p := s.client.iport;
    && (forall q :: q in s.net.requests ==> q <= p)
    && (forall q :: q in s.net.sessions ==> q in s.net.requests)
    && (forall q, pkt :: (q, pkt) in s.net.inbox ==> q in s.net.sessions)
    && (forall q, n :: (q, n) in s.net.acks ==> q <= p)
  }

  ghost predicate IsBlock(f: File, size: nat, j: nat, pkt: Packet) {
    j >= 1 && pkt == Deliver16(f, size, j)
  }

  /** The packets a session has put on the network. */
  ghost predicate InboxHonest(f: File, net: Net, p: nat, sn: Session) {
    forall pkt :: (p, pkt) in net.inbox ==>
      if pkt.Data? then exists j :: 1 <= j <= sn.sent && IsBlock(f, sn.blksize, j, pkt)
      else pkt.Oack? && sn.oack && Honest(f, sn.blksize, pkt.options)
  }

  /** How far the server of the current session can be, and what it can assume of the client. */
  ghost predicate ServerBehind(f: File, s: System, sn: Session) {
    var c, p := s.client, s.client.iport;
    && sn.blksize >= 1 && sn.sent <= Blocks(f, sn.blksize)
    && (sn.sent <= c.prevblock + 1 || c.prevblock == 0xFFFF)
    && InboxHonest(f, s.net, p, sn)
    && (forall n :: (p, n) in s.net.acks ==> n <= c.prevblock && c.packetsize == sn.blksize)
    && (if sn.oack then
          c.packetsize in {DEFAULT_SIZE, sn.blksize} && (sn.sent >= 1 ==> (p, 0) in s.net.acks)
        else sn.blksize == DEFAULT_SIZE == c.packetsize && sn.sent >= 1)
  }

  /** What the client has stored: the first `prevblock` blocks, and the end of file with the last. */
  ghost predicate Stored(f: File, c: Client, sn: Session) {
    && c.prevblock <= sn.sent
    && (c.prevblock > 0 ==> c.packetsize == sn.blksize)
    && sn.blksize >= 1
    && c.received == Prefix(f, sn.blksize, c.prevblock)
    && (!c.closed ==> (c.eof <==> c.prevblock == Blocks(f, sn.blksize)))
  }

  ghost predicate ClientSane(s: System) {
    var c := s.client;
    && c.prevblock == c.bcounter <= 0xFFFF
    && (c.block == c.prevblock || (c.closed && c.eof))
    && (c.tp.Request? ==> c.packetsize == DEFAULT_SIZE && c.prevblock == 0)
    && (c.eof && c.prevblock == 0 ==> c.closed)
    && (c.iport !in s.net.sessions ==>
          && c.prevblock == 0 && c.received == []
          && (c.iport in s.net.requests ==> c.packetsize == DEFAULT_SIZE)
          && (forall n :: (c.iport, n) !in s.net.acks))
  }

  ghost predicate Inv(f: File, s: System) {
    var p := s.client.iport;
    && PortsInOrder(s)
    && ClientSane(s)
    && (p in s.net.sessions ==> ServerBehind(f, s, s.net.sessions[p]) && Stored(f, s.client, s.net.sessions[p]))
  }

  // ---------- It is kept by every event

  lemma StartInv(f: File)
    ensures Inv(f, Start)
  {
  }

  /** Processing honest options leaves the client with the session's block size, if it accepts. */
  lemma {:induction false} NegotiateHonest(f: File, blksize: nat, options: seq<OackOption>, packetsize: int, filemax: int)
    requires forall i :: 0 <= i < |options| ==>
               match options[i] case BlkSize(n) => n == blksize case TSize(n) => n == |f| case Unknown => false
    ensures var (ps, fm, ok) := Negotiate(packetsize, filemax, options);
      && ps in {packetsize, blksize} && fm in {filemax, |f|}
      && (packetsize == blksize ==> ps == blksize)
      && (ok && (exists i :: 0 <= i < |options| && options[i] == BlkSize(blksize)) ==> ps == blksize)
    decreases |options|
  {
    if options != [] {
      match options[0]
      case BlkSize(n) => NegotiateHonest(f, blksize, options[1..], n, filemax);
      case TSize(n) =>
        NegotiateHonest(f, blksize, options[1..], packetsize, n);
        if i :| 0 <= i < |options| && options[i] == BlkSize(blksize) {
          assert options[1..][i - 1] == BlkSize(blksize);
        }
      case Unknown => assert false;
    }
  }

  lemma ServeKeepsInv(f: File, s: System, e: ServerEvent)
    requires Inv(f, s)
    ensures Inv(f, s.(net := Serve(f, s.net, e)))
  {
    var p, net' := s.client.iport, Serve(f, s.net, e);
    if e.port == p && net' != s.net {
      var sn' := net'.sessions[p];
      match e
      case OpenPlain(_) => SessionOpens(f, s, Deliver16(f, DEFAULT_SIZE, 1), sn');
      case OpenWithOptions(_, _, length, options) => SessionOpens(f, s, Oack(length, options), sn');
      case Respond(_, ack) => ServerResponds(f, s, ack);
    }
  }

  lemma SessionOpens(f: File, s: System, pkt: Packet, sn: Session)
    requires Inv(f, s) && s.client.iport !in s.net.sessions && s.client.iport in s.net.requests
    requires if pkt.Oack? then sn == Session(sn.blksize, true, 0) && Honest(f, sn.blksize, pkt.options)
             else pkt == Deliver16(f, DEFAULT_SIZE, 1) && sn == Session(DEFAULT_SIZE, false, 1)
    ensures var p := s.client.iport;
      Inv(f, s.(net := s.net.(sessions := s.net.sessions[p := sn], inbox := s.net.inbox + {(p, pkt)})))
  {
    var p := s.client.iport;
    assert !pkt.Oack? ==> IsBlock(f, sn.blksize, 1, pkt);
    assert Prefix(f, sn.blksize, 0) == [];
  }

  lemma ServerResponds(f: File, s: System, ack: nat)
    requires Inv(f, s) && s.client.iport in s.net.sessions && (s.client.iport, ack) in s.net.acks
    requires var sn := s.net.sessions[s.client.iport]; sn.sent % 0x1_0000 == ack && sn.sent < Blocks(f, sn.blksize)
    ensures Inv(f, s.(net := Serve(f, s.net, Respond(s.client.iport, ack))))
  {
    var p := s.client.iport;
    var sn := s.net.sessions[p];
    var sn' := sn.(sent := sn.sent + 1);
    var pkt := Deliver16(f, sn.blksize, sn'.sent);
    var net' := s.net.(sessions := s.net.sessions[p := sn'], inbox := s.net.inbox + {(p, pkt)});
    assert IsBlock(f, sn.blksize, sn'.sent, pkt);
    forall q | (p, q) in net'.inbox && q.Data? ensures exists j :: 1 <= j <= sn'.sent && IsBlock(f, sn'.blksize, j, q) {
      if q != pkt {
        var j :| 1 <= j <= sn.sent && IsBlock(f, sn.blksize, j, q);
      }
    }
  }

  /** The block a data packet of the current session carries, if the client still has room in its
      16-bit numbering: the wire number tells which block it is. */
  lemma WireNumberIsExact(f: File, s: System, pkt: Packet)
    requires Inv(f, s) && pkt.Data? && (s.client.iport, pkt) in s.net.inbox
    ensures var sn := s.net.sessions[s.client.iport];
      && s.client.packetsize == sn.blksize
      && (pkt.block == s.client.prevblock + 1 && pkt.block <= 0xFFFF ==>
            pkt.block <= sn.sent && pkt.payload == Chunk(f, sn.blksize, pkt.block))
  {
    hide Chunk, Stored, Blocks;
    var c, sn := s.client, s.net.sessions[s.client.iport];
    var j :| 1 <= j <= sn.sent && IsBlock(f, sn.blksize, j, pkt);
    if pkt.block == c.prevblock + 1 && pkt.block <= 0xFFFF {
      assert j <= 0xFFFF;
    }
  }

  /** The client in step with the current session, about to answer a packet of it. */
  ghost predicate InStep(f: File, s: System, c: Client) {
    && Inv(f, s) && !s.client.eof && s.client.iport in s.net.sessions
    && c == s.client.(packetsize := s.net.sessions[s.client.iport].blksize, filemax := c.filemax)
  }

  /** `Answer` has two outcomes: the packet carries the next block, or what is stored stays. */
  lemma AnswerCases(c: Client, wire: nat, payload: seq<byte>)
    requires c.block == c.prevblock == c.bcounter <= 0xFFFF && (wire == c.prevblock + 1 ==> wire <= 0xFFFF)
    ensures Answer(c, wire, payload, false) ==
      if wire == c.prevblock + 1 then
        (c.(block := wire, tp := Ack(wire), prevblock := wire, retry := 0, bcounter := c.bcounter + 1,
            received := c.received + payload, eof := c.eof || |payload| < c.packetsize), Acked(wire))
      else (c.(tp := Ack(c.prevblock)), Acked(c.prevblock))
  {
  }

  lemma StoringKeepsInv(f: File, s: System, c: Client, payload: seq<byte>)
    requires InStep(f, s, c)
    requires var sn, wire := s.net.sessions[s.client.iport], c.prevblock + 1;
      wire <= sn.sent && wire <= 0xFFFF && payload == Chunk(f, sn.blksize, wire)
    ensures var wire := c.prevblock + 1;
      Inv(f, System(Answer(c, wire, payload, false).0, s.net.(acks := s.net.acks + {(c.iport, wire)})))
  {
    var sn, wire := s.net.sessions[c.iport], c.prevblock + 1;
    AnswerCases(c, wire, payload);
    PrefixThenChunk(f, sn.blksize, c.prevblock);
    ShortExactlyLast(f, sn.blksize, wire);
  }

  lemma RepeatingKeepsInv(f: File, s: System, c: Client)
    requires InStep(f, s, c)
    ensures Inv(f, System(c.(tp := Ack(c.prevblock)), s.net.(acks := s.net.acks + {(c.iport, c.prevblock)})))
  {
  }

  lemma AbortKeepsInv(f: File, s: System, c: Client, wire: nat, payload: seq<byte>)
    requires InStep(f, s, c)
    ensures var (c', action) := Answer(c, wire, payload, true); action.Aborted? && Inv(f, System(c', s.net))
  {
  }

  /** Whatever `Answer` does, it acknowledges what is stored afterwards and stores at most one block. */
  lemma AnswerKeepsInv(f: File, s: System, c: Client, wire: nat, payload: seq<byte>)
    requires InStep(f, s, c) && (wire == c.prevblock + 1 ==> wire <= 0xFFFF)
    requires var sn := s.net.sessions[s.client.iport];
      wire == c.prevblock + 1 ==> wire <= sn.sent && payload == Chunk(f, sn.blksize, wire)
    ensures var (c', action) := Answer(c, wire, payload, false);
      action.Acked? && c'.iport == c.iport && Inv(f, System(c', s.net.(acks := s.net.acks + {(c.iport, action.block)})))
  {
    AnswerCases(c, wire, payload);
    if wire == c.prevblock + 1 { StoringKeepsInv(f, s, c, payload); } else { RepeatingKeepsInv(f, s, c); }
  }

  lemma DataKeepsInv(f: File, s: System, pkt: Packet, abort: bool)
    requires Inv(f, s) && !s.client.eof && pkt.Data? && (s.client.iport, pkt) in s.net.inbox
    ensures Inv(f, Step(f, s, Arrival(pkt, abort)))
  {
    hide Inv, Answer;
    PacketHasSession(f, s, pkt);
    WireNumberIsExact(f, s, pkt);
    if |pkt.payload| <= s.client.packetsize {
      WireNumberIsShort(f, s, pkt);
      if abort { AbortKeepsInv(f, s, s.client, pkt.block, pkt.payload); }
      else { AnswerKeepsInv(f, s, s.client, pkt.block, pkt.payload); }
    }
  }

  lemma PacketHasSession(f: File, s: System, pkt: Packet)
    requires Inv(f, s) && (s.client.iport, pkt) in s.net.inbox
    ensures s.client.iport in s.net.sessions
  {
  }

  lemma WireNumberIsShort(f: File, s: System, pkt: Packet)
    requires Inv(f, s) && pkt.Data? && (s.client.iport, pkt) in s.net.inbox
    ensures pkt.block <= 0xFFFF
  {
    var sn := s.net.sessions[s.client.iport];
    var j :| 1 <= j <= sn.sent && IsBlock(f, sn.blksize, j, pkt);
  }

  lemma OackKeepsInv(f: File, s: System, pkt: Packet, abort: bool)
    requires Inv(f, s) && !s.client.eof && pkt.Oack? && (s.client.iport, pkt) in s.net.inbox
    ensures Inv(f, Step(f, s, Arrival(pkt, abort)))
  {
    var c, sn := s.client, s.net.sessions[s.client.iport];
    if c.prevblock == 0 && pkt.length <= MAX_PACKET {
      NegotiateHonest(f, sn.blksize, pkt.options, c.packetsize, c.filemax);
      var (ps, fm, ok) := Negotiate(c.packetsize, c.filemax, pkt.options);
      if ok {
        var c1 := c.(packetsize := ps, filemax := fm);
        if abort { AbortKeepsInv(f, s, c1, 0, []); } else { AnswerKeepsInv(f, s, c1, 0, []); }
      }
    }
  }

  lemma TimeoutKeepsInv(f: File, s: System, linkUp: bool)
    requires Inv(f, s)
    ensures Inv(f, Step(f, s, Timeout(linkUp)))
  {
    if s.client.iport in s.net.sessions && s.client.prevblock == 0 {
      assert Prefix(f, s.net.sessions[s.client.iport].blksize, 0) == [];
    }
  }

  lemma StepKeepsInv(f: File, s: System, e: Event)
    requires Inv(f, s)
    ensures Inv(f, Step(f, s, e))
  {
    match e
    case ServerStep(se) => ServeKeepsInv(f, s, se);
    case Arrival(pkt, abort) =>
      if !s.client.eof && (s.client.iport, pkt) in s.net.inbox {
        if pkt.Data? { DataKeepsInv(f, s, pkt, abort); }
        if pkt.Oack? { OackKeepsInv(f, s, pkt, abort); }
      }
    case Timeout(linkUp) => TimeoutKeepsInv(f, s, linkUp);
    case Open(_) =>
    case SetFileMax(_) =>
  }

  lemma {:induction false} RunKeepsInv(f: File, s: System, events: seq<Event>)
    requires Inv(f, s)
    ensures Inv(f, Run(f, s, events))
    decreases |events|
  {
    if events != [] {
      RunKeepsInv(f, s, events[..|events| - 1]);
      StepKeepsInv(f, Run(f, s, events[..|events| - 1]), events[|events| - 1]);
    }
  }

  // ---------- What it means for every run

  /** For every file and every run: the bytes stored are the first `prevblock` blocks of the file,
      and the client only believes that it has reached the end when it has stored all of it.  That
      can only happen for a file of at most 65535 blocks. */
  lemma DeliveredIsPrefix(f: File, events: seq<Event>)
    ensures var s := Run(f, Start, events); var c := s.client;
      && c.received <= f
      && (c.received != [] ==>
            && c.iport in s.net.sessions
            && c.received == Prefix(f, s.net.sessions[c.iport].blksize, c.prevblock))
      && (c.eof && !c.closed ==>
            && c.received == f
            && c.iport in s.net.sessions && s.net.sessions[c.iport].blksize >= 1
            && c.prevblock == Blocks(f, s.net.sessions[c.iport].blksize) <= 0xFFFF)
  {
    StartInv(f);
    RunKeepsInv(f, Start, events);
    var s := Run(f, Start, events);
    if s.client.iport in s.net.sessions && s.client.eof && !s.client.closed {
      ShortExactlyLast(f, s.net.sessions[s.client.iport].blksize, s.client.prevblock);
    }
  }

  /** Every acknowledgment carries the number of blocks stored once the packet has been dealt with:
      the one it just stored or the last one before.  An OACK is answered with 0 and stores nothing. */
  lemma AcksWhatIsStored(f: File, events: seq<Event>, pkt: Packet)
    ensures var s := Run(f, Start, events);
      var (c, action) := Receive(s.client, pkt, false);
      !s.client.eof && Deliverable(s.net, s.client.iport, pkt) && action.Acked? ==>
        && action.block == c.prevblock
        && c.prevblock in {s.client.prevblock, s.client.prevblock + 1}
        && (c.prevblock == s.client.prevblock ==> c.received == s.client.received)
        && (pkt.Oack? ==> action.block == 0 && c.received == s.client.received)
  {
    StartInv(f);
    RunKeepsInv(f, Start, events);
    var s := Run(f, Start, events);
    if !s.client.eof && pkt.Data? && (s.client.iport, pkt) in s.net.inbox {
      WireNumberIsShort(f, s, pkt);
      AnswerCases(s.client, pkt.block, pkt.payload);
    }
  }

  /** The client stays with the file it has opened. */
  ghost predicate NoReopening(events: seq<Event>) {
    forall i :: 0 <= i < |events| ==> !events[i].Open?
  }

  /** What is stored only ever grows, so acknowledgment numbers never decrease. */
  lemma {:induction false} StoredGrows(f: File, s: System, events: seq<Event>)
    requires Inv(f, s) && NoReopening(events)
    ensures var c := Run(f, s, events).client;
      s.client.prevblock <= c.prevblock && s.client.received <= c.received
    decreases |events|
  {
    if events != [] {
      var before := Run(f, s, events[..|events| - 1]);
      var e := events[|events| - 1];
      StoredGrows(f, s, events[..|events| - 1]);
      RunKeepsInv(f, s, events[..|events| - 1]);
      assert !e.Open?;
      if e.Arrival? && !before.client.eof && e.pkt.Data? && (before.client.iport, e.pkt) in before.net.inbox {
        WireNumberIsShort(f, before, e.pkt);
        if !e.abort { AnswerCases(before.client, e.pkt.block, e.pkt.payload); }
      }
    }
  }

  lemma {:induction false} RunAppend(f: File, s: System, e1: seq<Event>, e2: seq<Event>)
    ensures Run(f, s, e1 + e2) == Run(f, Run(f, s, e1), e2)
    decreases |e2|
  {
    if e2 == [] {
      assert e1 + e2 == e1;
    } else {
      assert (e1 + e2)[..|e1 + e2| - 1] == e1 + e2[..|e2| - 1];
      RunAppend(f, s, e1, e2[..|e2| - 1]);
    }
  }

  // ---------- Which files can be read to the end

  /** A file that is being opened, when the request has been sent again `lost` times. */
  ghost function Asked(f: File, lost: nat): System {
    if lost == 0 then Step(f, Start, Open(true)) else Step(f, Asked(f, lost - 1), Timeout(true))
  }

  /** Every request goes out from a new port, and is there for a server to see. */
  lemma {:induction false} AskedIs(f: File, lost: nat)
    requires lost <= 20
    ensures var s := Asked(f, lost);
      && s.client == Client(2001 + lost, 0, 0, 0, 512, lost, false, Request, 0, [], false)
      && s.client.iport in s.net.requests && s.net.sessions == map[] && s.net.inbox == {} && s.net.acks == {}
    ensures Inv(f, Asked(f, lost))
    decreases lost
  {
    StartInv(f);
    if lost == 0 {
      StepKeepsInv(f, Start, Open(true));
    } else {
      AskedIs(f, lost - 1);
      StepKeepsInv(f, Asked(f, lost - 1), Timeout(true));
    }
  }

  /** A freshly opened file: the server offers the block size `size`; or it ignores the options of the
      request, and sends the first block at once (`plain`). */
  ghost function Opened(f: File, size: nat, plain: bool, lost: nat): System {
    var s := Asked(f, lost);
    var p := s.client.iport;
    Step(f, s, ServerStep(if plain then OpenPlain(p) else OpenWithOptions(p, size, 0, [BlkSize(size)])))
  }

  /** Events that leave the client with the same session. */
  ghost predicate OneSession(events: seq<Event>) {
    forall i :: 0 <= i < |events| ==> !events[i].Open? && !events[i].Timeout?
  }

  ghost predicate ReadsToTheEnd(f: File, size: nat, plain: bool, lost: nat, events: seq<Event>) {
    var c := Run(f, Opened(f, size, plain, lost), events).client;
    OneSession(events) && c.eof && !c.closed
  }

  lemma {:induction false} SessionStays(f: File, s: System, events: seq<Event>)
    requires OneSession(events) && s.client.iport in s.net.sessions
    ensures var s' := Run(f, s, events);
      && s'.client.iport == s.client.iport && s.client.iport in s'.net.sessions
      && s'.net.sessions[s.client.iport].blksize == s.net.sessions[s.client.iport].blksize
    decreases |events|
  {
    if events != [] {
      SessionStays(f, s, events[..|events| - 1]);
    }
  }

  /** The client has stored `k` blocks and acknowledged the last, which the server has yet to see. */
  ghost predicate WaitingFor(f: File, s: System, size: nat, k: nat) {
    var c, p := s.client, s.client.iport;
    && Inv(f, s) && p in s.net.sessions && s.net.sessions[p].blksize == size && s.net.sessions[p].sent == k
    && c.prevblock == k && (p, k) in s.net.acks && !c.eof && !c.closed
  }

  /** One exchange with nothing lost: the server sends block k + 1 and the client stores it. */
  lemma OneExchange(f: File, s: System, size: nat, k: nat) returns (events: seq<Event>, s': System)
    requires size >= 1 && WaitingFor(f, s, size, k) && k < Blocks(f, size) && k < 0xFFFF
    ensures OneSession(events) && s' == Run(f, s, events)
    ensures if k + 1 == Blocks(f, size) then s'.client.eof && !s'.client.closed else WaitingFor(f, s', size, k + 1)
  {
    hide Inv, Chunk, Blocks, Serve, Receive;
    var e1, e2 := ServerStep(Respond(s.client.iport, k)), Arrival(Deliver16(f, size, k + 1), false);
    events := [e1, e2];
    var s1 := Step(f, s, e1);
    s' := Step(f, s1, e2);
    StepKeepsInv(f, s, e1);
    StepKeepsInv(f, s1, e2);
    ServerSends(f, s, size, k);
    ClientStores(f, s1, size, k);
    TwoSteps(f, s, e1, e2);
  }

  lemma TwoSteps(f: File, s: System, e1: Event, e2: Event)
    ensures Run(f, s, [e1]) == Step(f, s, e1) && Run(f, s, [e1, e2]) == Step(f, Step(f, s, e1), e2)
  {
    assert [e1][..0] == [] && [e1, e2][..1] == [e1];
    assert Run(f, s, []) == s && Run(f, s, [e1]) == Step(f, Run(f, s, []), e1);
  }

  lemma ServerSends(f: File, s: System, size: nat, k: nat)
    requires size >= 1 && WaitingFor(f, s, size, k) && k < Blocks(f, size) && k < 0xFFFF
    ensures var p, s1 := s.client.iport, Step(f, s, ServerStep(Respond(s.client.iport, k)));
      && s1.client == s.client && p in s1.net.sessions && s1.net.sessions[p].blksize == size
      && s1.net.sessions[p].sent == k + 1 && (p, Deliver16(f, size, k + 1)) in s1.net.inbox
      && (s1.client.packetsize == size)
  {
  }

  lemma ClientStores(f: File, s: System, size: nat, k: nat)
    requires Inv(f, s) && size >= 1 && k < Blocks(f, size) && k < 0xFFFF
    requires var c, p := s.client, s.client.iport;
      && p in s.net.sessions && s.net.sessions[p].blksize == size && s.net.sessions[p].sent == k + 1
      && c.prevblock == k && c.packetsize == size && !c.eof && !c.closed
      && (p, Deliver16(f, size, k + 1)) in s.net.inbox
    ensures var s' := Step(f, s, Arrival(Deliver16(f, size, k + 1), false)); var c := s'.client;
      && c.iport == s.client.iport && c.prevblock == k + 1 && !c.closed && s'.net.sessions == s.net.sessions
      && (c.iport, k + 1) in s'.net.acks && (c.eof <==> k + 1 == Blocks(f, size))
  {
    hide Blocks, Chunk;
    ShortExactlyLast(f, size, k + 1);
    AnswerCases(s.client, k + 1, Chunk(f, size, k + 1));
  }

  lemma {:induction false} ExchangesToTheEnd(f: File, s: System, size: nat, k: nat) returns (events: seq<Event>)
    requires size >= 1 && WaitingFor(f, s, size, k) && k < Blocks(f, size) <= 0xFFFF
    ensures OneSession(events)
    ensures var c := Run(f, s, events).client; c.eof && !c.closed
    decreases Blocks(f, size) - k
  {
    var s';
    events, s' := OneExchange(f, s, size, k);
    if k + 1 < Blocks(f, size) {
      var rest := ExchangesToTheEnd(f, s', size, k + 1);
      RunAppend(f, s, events, rest);
      events := events + rest;
    }
  }

  /** The OACK is accepted and acknowledged with 0. */
  lemma OptionsAgreed(f: File, size: nat, lost: nat) returns (e: Event, s: System)
    requires DEFAULT_SIZE <= size <= MAX_PACKET && lost <= 20
    ensures OneSession([e]) && s == Run(f, Opened(f, size, false, lost), [e]) && WaitingFor(f, s, size, 0)
  {
    var options := [BlkSize(size)];
    var s1 := Opened(f, size, false, lost);
    e := Arrival(Oack(0, options), false);
    OpenedInv(f, size, lost);
    StepKeepsInv(f, s1, e);
    s := Step(f, s1, e);
    TwoSteps(f, s1, e, e);
    ClientAgrees(f, s1, size);
  }

  /** Without options, the first block is there already. */
  lemma FirstBlock(f: File, lost: nat) returns (e: Event, s: System)
    requires lost <= 20
    ensures OneSession([e]) && s == Run(f, Opened(f, DEFAULT_SIZE, true, lost), [e])
    ensures if Blocks(f, DEFAULT_SIZE) == 1 then s.client.eof && !s.client.closed else WaitingFor(f, s, DEFAULT_SIZE, 1)
  {
    hide Inv, Chunk, Blocks, Serve, Receive;
    var s1 := Opened(f, DEFAULT_SIZE, true, lost);
    e := Arrival(Deliver16(f, DEFAULT_SIZE, 1), false);
    OpenedPlainInv(f, lost);
    StepKeepsInv(f, s1, e);
    s := Step(f, s1, e);
    TwoSteps(f, s1, e, e);
    SomeBlocks(f);
    ClientStores(f, s1, DEFAULT_SIZE, 0);
  }

  lemma SomeBlocks(f: File)
    ensures Blocks(f, DEFAULT_SIZE) >= 1
  {
  }

  lemma ClientAgrees(f: File, s: System, size: nat)
    requires DEFAULT_SIZE <= size <= MAX_PACKET
    requires var c := s.client;
      && c.prevblock == 0 == c.bcounter && !c.eof && !c.closed
      && (c.iport, Oack(0, [BlkSize(size)])) in s.net.inbox
    ensures var s' := Step(f, s, Arrival(Oack(0, [BlkSize(size)]), false)); var c := s'.client;
      && c.iport == s.client.iport && c.prevblock == 0 && !c.eof && !c.closed && s'.net.sessions == s.net.sessions
      && (c.iport, 0) in s'.net.acks
  {
    assert [BlkSize(size)][1..] == [];
    assert Negotiate(s.client.packetsize, s.client.filemax, [BlkSize(size)]) == (size, s.client.filemax, true);
  }

  /** A file can be read to the end, also when up to 20 requests have been lost, exactly when it has at
      most 65535 blocks: the block counter of the client does not wrap around, so block 65536 is never
      accepted. */
  lemma ReadableIff(f: File, size: nat, plain: bool, lost: nat)
    requires DEFAULT_SIZE <= size <= MAX_PACKET && (plain ==> size == DEFAULT_SIZE) && lost <= 20
    ensures (exists events :: ReadsToTheEnd(f, size, plain, lost, events)) <==> Blocks(f, size) <= 0xFFFF
  {
    if Blocks(f, size) <= 0xFFFF {
      var events := SomeRun(f, size, plain, lost);
      assert ReadsToTheEnd(f, size, plain, lost, events);
    }
    if events :| ReadsToTheEnd(f, size, plain, lost, events) {
      if plain { OpenedPlainInv(f, lost); } else { OpenedInv(f, size, lost); }
      RunKeepsInv(f, Opened(f, size, plain, lost), events);
      SessionStays(f, Opened(f, size, plain, lost), events);
    }
  }

  /** A run with nothing lost. */
  lemma SomeRun(f: File, size: nat, plain: bool, lost: nat) returns (events: seq<Event>)
    requires DEFAULT_SIZE <= size <= MAX_PACKET && (plain ==> size == DEFAULT_SIZE) && lost <= 20 && Blocks(f, size) <= 0xFFFF
    ensures ReadsToTheEnd(f, size, plain, lost, events)
  {
    hide Run, Step, WaitingFor, Opened, Blocks;
    var e, s;
    SomeBlocks(f);
    if plain { e, s := FirstBlock(f, lost); } else { e, s := OptionsAgreed(f, size, lost); }
    var k := if plain then 1 else 0;
    events := [e];
    if !plain || Blocks(f, size) != 1 {
      MoreBlocks(f, size, k);
      var rest := ExchangesToTheEnd(f, s, size, k);
      RunAppend(f, Opened(f, size, plain, lost), events, rest);
      events := events + rest;
    }
  }

  lemma MoreBlocks(f: File, size: nat, k: nat)
    requires size >= 1 && k <= 1 && (k == 1 ==> Blocks(f, size) != 1)
    ensures k < Blocks(f, size)
  {
  }

  lemma OpenedPlainInv(f: File, lost: nat)
    requires lost <= 20
    ensures var s := Opened(f, DEFAULT_SIZE, true, lost); var c, p := s.client, s.client.iport;
      && Inv(f, s) && p in s.net.sessions && s.net.sessions[p] == Session(DEFAULT_SIZE, false, 1)
      && c.prevblock == 0 == c.bcounter && c.packetsize == DEFAULT_SIZE && !c.eof && !c.closed
      && (p, Deliver16(f, DEFAULT_SIZE, 1)) in s.net.inbox
  {
    hide Inv, Asked;
    var s0 := Asked(f, lost);
    AskedIs(f, lost);
    StepKeepsInv(f, s0, ServerStep(OpenPlain(s0.client.iport)));
  }

  lemma OpenedInv(f: File, size: nat, lost: nat)
    requires DEFAULT_SIZE <= size <= MAX_PACKET && lost <= 20
    ensures var s := Opened(f, size, false, lost); var c, p := s.client, s.client.iport;
      && Inv(f, s) && p in s.net.sessions && s.net.sessions[p] == Session(size, true, 0)
      && c.prevblock == 0 == c.bcounter && !c.eof && !c.closed && (p, Oack(0, [BlkSize(size)])) in s.net.inbox
  {
    hide Inv, Asked;
    var options := [BlkSize(size)];
    assert options[0] == BlkSize(size);
    var s0 := Asked(f, lost);
    AskedIs(f, lost);
    StepKeepsInv(f, s0, ServerStep(OpenWithOptions(s0.client.iport, size, 0, options)));
  }

  // ---------- Facts for the code that uses the protocol

  lemma RunOneMore(f: File, s: System, events: seq<Event>, e: Event)
    ensures Run(f, s, events + [e]) == Step(f, Run(f, s, events), e)
  {
    assert (events + [e])[..|events|] == events;
  }

  lemma CountersAgree(f: File, events: seq<Event>)
    ensures var c := Run(f, Start, events).client; c.bcounter == c.prevblock <= 0xFFFF
  {
    StartInv(f);
    RunKeepsInv(f, Start, events);
  }

  /** The size the server announces is the true one. */
  lemma AnnouncedSize(f: File, events: seq<Event>, pkt: Packet, abort: bool)
    ensures var s := Run(f, Start, events);
      Deliverable(s.net, s.client.iport, pkt) ==>
        Receive(s.client, pkt, abort).0.filemax in {s.client.filemax, |f|}
  {
    StartInv(f);
    RunKeepsInv(f, Start, events);
    var s := Run(f, Start, events);
    if pkt.Oack? && (s.client.iport, pkt) in s.net.inbox {
      var sn := s.net.sessions[s.client.iport];
      NegotiateHonest(f, sn.blksize, pkt.options, s.client.packetsize, s.client.filemax);
    }
  }

  /** The block size stays between the bounds that the buffer is made for. */
  lemma PacketSizeBounded(f: File, events: seq<Event>)
    ensures 8 <= Run(f, Start, events).client.packetsize <= MAX_PACKET
    decreases |events|
  {
    if events != [] {
      var before := events[..|events| - 1];
      PacketSizeBounded(f, before);
      StartInv(f);
      RunKeepsInv(f, Start, before);
      var s, e := Run(f, Start, before), events[|events| - 1];
      if e.Arrival? && e.pkt.Oack? && (s.client.iport, e.pkt) in s.net.inbox {
        var sn := s.net.sessions[s.client.iport];
        NegotiateHonest(f, sn.blksize, e.pkt.options, s.client.packetsize, s.client.filemax);
      }
    }
  }

  // ---------- What the client does with each kind of packet

  predicate BadOption(o: OackOption) {
    match o case BlkSize(n) => n < 512 case TSize(n) => n < 0 case Unknown => true
  }

  /** Options are accepted exactly if none of them is bad. */
  lemma {:induction false} NegotiatesIff(packetsize: int, filemax: int, options: seq<OackOption>)
    ensures Negotiate(packetsize, filemax, options).2 <==> forall i :: 0 <= i < |options| ==> !BadOption(options[i])
    decreases |options|
  {
    if options != [] {
      NegotiatesIff(match options[0] case BlkSize(n) => n case _ => packetsize,
                    match options[0] case TSize(n) => n case _ => filemax, options[1..]);
      if forall i :: 0 <= i < |options[1..]| ==> !BadOption(options[1..][i]) {
        forall i | 1 <= i < |options| ensures !BadOption(options[i]) { assert options[1..][i - 1] == options[i]; }
      }
    }
  }

  /** The six things that can come of a packet, and when each does. */
  lemma ActionIff(c: Client, pkt: Packet, abort: bool)
    ensures var (c', action) := Receive(c, pkt, abort);
      && (action.Failed? <==> pkt.Error?)
      && (action.Stopped? <==> pkt.OtherOpcode?)
      && (action.Ignored? <==> (pkt.Oack? && c.prevblock != 0) || (pkt.Data? && |pkt.payload| > c.packetsize))
      && (action.Refused? <==>
            && pkt.Oack? && c.prevblock == 0
            && (pkt.length > 1432 || exists i :: 0 <= i < |pkt.options| && BadOption(pkt.options[i])))
      && (action.Aborted? ==> abort) && (action.Acked? ==> !abort)
      && (action.Failed? || action.Stopped? || action.Ignored? ==> c' == c)
      && (action.Refused? ==> c'.received == c.received && c'.eof == c.eof)
      && (action.Aborted? ==> c'.received == c.received && c'.eof)
      && (c'.prevblock != c.prevblock ==> c'.retry == 0)
  {
    if pkt.Oack? { NegotiatesIff(c.packetsize, c.filemax, pkt.options); }
  }

  /** The first bad option ends the negotiation: a block size is taken all the same, and a bad size counts
      as unknown. */
  lemma BadOptionEnds(packetsize: int, filemax: int, o: OackOption, rest: seq<OackOption>)
    requires BadOption(o)
    ensures Negotiate(packetsize, filemax, [o] + rest) ==
      if o.BlkSize? then (o.n, filemax, false) else if o.TSize? then (packetsize, -1, false) else (packetsize, filemax, false)
  {
  }
}

/**
 What the client of netboot/fsys_tftp.c takes for the size of a file: the server may announce it in
 an OACK; otherwise `tftp_dir` adds up what it reads.  Both together can go wrong.
 */
module TftpSize {
  import opened TftpProtocol
  import opened TftpSafety

  predicate TellsSize(options: seq<OackOption>) {
    exists i :: 0 <= i < |options| && options[i].TSize?
  }

  /** The event is an OACK that the client accepts, and it announces the size. */
  predicate Announces(s: System, e: Event) {
    && e.Arrival? && e.pkt.Oack? && !s.client.eof && Deliverable(s.net, s.client.iport, e.pkt)
    && Receive(s.client, e.pkt, e.abort).1.Acked? && TellsSize(e.pkt.options)
  }

  ghost predicate AnnouncesAt(f: File, t: seq<Event>, k: nat)
    requires k < |t|
  {
    Announces(Run(f, Start, t[..k]), t[k])
  }

  /** This happens in the run `t` from its event `m` on. */
  ghost predicate AnnouncedSince(f: File, m: nat, t: seq<Event>) {
    exists k :: m <= k < |t| && AnnouncesAt(f, t, k)
  }

  /** A packet that is neither data nor an OACK nor an error, at which `buf_fill` stops. */
  predicate IsStray(e: Event) {
    e.Arrival? && e.pkt.OtherOpcode?
  }

  /** A stray packet comes, and after it the first announcement. */
  ghost predicate AnnouncedLate(f: File, m: nat, t: seq<Event>) {
    exists j, k :: m <= j < k < |t| && IsStray(t[j]) && AnnouncesAt(f, t, k) && !AnnouncedSince(f, m, t[..j])
  }

  /** How many events there are before the file is opened again. */
  function UntilOpen(t: seq<Event>, m: nat): (n: nat)
    requires m <= |t|
    ensures m <= n <= |t|
    ensures forall i :: m <= i < n ==> !t[i].Open?
    ensures n < |t| ==> t[n].Open?
    decreases |t| - m
  {
    if m == |t| || t[m].Open? then m else UntilOpen(t, m + 1)
  }

  /** The size is counted twice.  `t` is the run and `m` where the file has just been opened: then, in
      the first session, the announcement comes late, and in the second there is none. */
  ghost predicate CountedTwice(f: File, m: nat, t: seq<Event>)
    requires m <= |t|
  {
    var n := UntilOpen(t, m);
    AnnouncedLate(f, m, t[..n]) && n < |t| && !AnnouncedSince(f, n, t)
  }

  // ---------- Announcements along a run

  lemma SameRunBefore(f: File, t: seq<Event>, n: nat, k: nat)
    requires k < n <= |t|
    ensures AnnouncesAt(f, t[..n], k) <==> AnnouncesAt(f, t, k)
  {
    assert t[..n][..k] == t[..k];
  }

  lemma AnnouncedSplit(f: File, m: nat, n: nat, t: seq<Event>)
    requires m <= n <= |t|
    ensures AnnouncedSince(f, m, t) <==> AnnouncedSince(f, m, t[..n]) || AnnouncedSince(f, n, t)
  {
    if k :| m <= k < |t| && AnnouncesAt(f, t, k) && k < n {
      SameRunBefore(f, t, n, k);
      assert AnnouncesAt(f, t[..n], k);
    }
    if k :| m <= k < |t[..n]| && AnnouncesAt(f, t[..n], k) {
      SameRunBefore(f, t, n, k);
      assert AnnouncesAt(f, t, k);
    }
  }

  lemma AnnouncedOneMore(f: File, m: nat, t: seq<Event>, e: Event)
    requires m <= |t|
    ensures AnnouncedSince(f, m, t + [e]) <==> AnnouncedSince(f, m, t) || Announces(Run(f, Start, t), e)
  {
    var t' := t + [e];
    assert t'[..|t|] == t;
    AnnouncedSplit(f, m, |t|, t');
    if Announces(Run(f, Start, t), e) { assert AnnouncesAt(f, t', |t|); }
    if k :| |t| <= k < |t'| && AnnouncesAt(f, t', k) { assert k == |t|; }
  }

  lemma NothingAnnounced(f: File, t: seq<Event>)
    ensures !AnnouncedSince(f, |t|, t)
  {
  }

  /** An announcement is only heard while nothing is stored. */
  lemma AnnouncedEarly(f: File, m: nat, t: seq<Event>)
    requires m <= |t| && NoReopening(t[m..]) && AnnouncedSince(f, m, t)
    ensures Run(f, Start, t[..m]).client.prevblock == 0
  {
    var k :| m <= k < |t| && AnnouncesAt(f, t, k);
    var s := Run(f, Start, t[..m]);
    StartInv(f);
    RunKeepsInv(f, Start, t[..m]);
    assert NoReopening(t[m..k]) by {
      forall i | 0 <= i < |t[m..k]| ensures !t[m..k][i].Open? { assert t[m..][i] == t[m..k][i]; }
    }
    StoredGrows(f, s, t[m..k]);
    assert t[..m] + t[m..k] == t[..k];
    RunAppend(f, Start, t[..m], t[m..k]);
  }

  /** The options of an OACK that is accepted set the size exactly if they tell it. */
  lemma {:induction false} NegotiateSets(f: File, packetsize: int, filemax: int, options: seq<OackOption>)
    requires forall i :: 0 <= i < |options| ==> (options[i].TSize? ==> options[i].n == |f|)
    ensures var (ps, fm, ok) := Negotiate(packetsize, filemax, options);
      ok ==> fm == if TellsSize(options) then |f| else filemax
    decreases |options|
  {
    if options != [] {
      var rest := options[1..];
      match options[0]
      case BlkSize(n) =>
        NegotiateSets(f, n, filemax, rest);
        TellsTail(options);
      case TSize(n) =>
        NegotiateSets(f, packetsize, n, rest);
        TellsTail(options);
      case Unknown =>
    }
  }

  lemma TellsTail(options: seq<OackOption>)
    requires options != []
    ensures TellsSize(options) <==> options[0].TSize? || TellsSize(options[1..])
  {
    if i :| 0 <= i < |options| && options[i].TSize? && i > 0 { assert options[1..][i - 1].TSize?; }
    if i :| 0 <= i < |options[1..]| && options[1..][i].TSize? { assert options[i + 1].TSize?; }
  }

  /** What one packet does to `filemax`. */
  lemma SizeAfter(f: File, t: seq<Event>, pkt: Packet)
    ensures var s := Run(f, Start, t);
      var (c, action) := Receive(s.client, pkt, false);
      !s.client.eof && Deliverable(s.net, s.client.iport, pkt) && !action.Refused? ==>
        c.filemax == if Announces(s, Arrival(pkt, false)) then |f| else s.client.filemax
  {
    StartInv(f);
    RunKeepsInv(f, Start, t);
    var s := Run(f, Start, t);
    if !s.client.eof && pkt.Oack? && (s.client.iport, pkt) in s.net.inbox {
      NegotiateSets(f, s.client.packetsize, s.client.filemax, pkt.options);
    }
  }

  /** What a run needs for the size to be counted twice. */
  lemma CountedTwiceNeeds(f: File, m: nat, t: seq<Event>)
    requires m <= |t| && CountedTwice(f, m, t)
    ensures exists j :: m <= j < |t| && IsStray(t[j])
    ensures exists k :: m <= k < |t| && t[k].Arrival? && t[k].pkt.Oack? && TellsSize(t[k].pkt.options)
  {
    var u := t[..UntilOpen(t, m)];
    var j, k :| m <= j < k < |u| && IsStray(u[j]) && AnnouncesAt(f, u, k) && !AnnouncedSince(f, m, u[..j]);
    assert t[j] == u[j] && t[k] == u[k];
  }

  // ---------- A file of one byte

  const OneByte: File := [7]
  const Port: nat := 2001

  /** What `tftp_dir` and the network do: a stray packet, the announcement, the file; and again the
      file, from a server that announces nothing. */
  const DoubleRun: seq<Event> := [
    SetFileMax(-1), Open(true),
    ServerStep(OpenWithOptions(Port, DEFAULT_SIZE, 0, [TSize(1)])), Arrival(OtherOpcode, false),
    SetFileMax(0), SetFileMax(0), Arrival(Oack(0, [TSize(1)]), false),
    ServerStep(Respond(Port, 0)), Arrival(Data(1, [7]), false), SetFileMax(2),
    Open(true), ServerStep(OpenPlain(Port + 1)), Arrival(Data(1, [7]), false)]

  function After(n: nat): System
    requires n <= |DoubleRun|
    decreases n
  {
    if n == 0 then Start else Step(OneByte, After(n - 1), DoubleRun[n - 1])
  }

  lemma {:induction false} AfterIsRun(n: nat)
    requires n <= |DoubleRun|
    ensures Run(OneByte, Start, DoubleRun[..n]) == After(n)
    decreases n
  {
    if n > 0 {
      AfterIsRun(n - 1);
      RunOneMore(OneByte, Start, DoubleRun[..n - 1], DoubleRun[n - 1]);
      assert DoubleRun[..n] == DoubleRun[..n - 1] + [DoubleRun[n - 1]];
    }
  }

  lemma OneBlock(size: nat)
    requires size >= 512
    ensures Blocks(OneByte, size) == 1 && Deliver16(OneByte, size, 1) == Data(1, [7])
  {
  }

  lemma AfterOpening()
    ensures var s := After(4);
      && s.client == Client(Port, 0, 0, 0, DEFAULT_SIZE, 0, false, Request, -1, [], false)
      && s.net == Net({Port}, map[Port := Session(DEFAULT_SIZE, true, 0)], {(Port, Oack(0, [TSize(1)]))}, {})
  {
    assert Honest(OneByte, DEFAULT_SIZE, [TSize(1)]);
    assert After(1) == Start.(client := Start.client.(filemax := -1));
    assert After(2).net.requests == {Port};
    assert After(3).net.inbox == {(Port, Oack(0, [TSize(1)]))};
    assert After(4) == After(3);
  }

  lemma AfterAnnouncement()
    ensures var s := After(7);
      && s.client == Client(Port, 0, 0, 0, DEFAULT_SIZE, 0, false, Ack(0), 1, [], false)
      && s.net == After(4).net.(acks := {(Port, 0)})
    ensures Announces(After(6), DoubleRun[6])
  {
    AfterOpening();
    var options := [TSize(1)];
    assert options[0].TSize? && options[1..] == [];
    assert Negotiate(DEFAULT_SIZE, 0, options) == (DEFAULT_SIZE, 1, true);
    assert After(5) == After(4).(client := After(4).client.(filemax := 0));
    assert After(6) == After(5);
  }

  lemma AfterFirstSession()
    ensures var s := After(10);
      && s.client == Client(Port, 1, 1, 1, DEFAULT_SIZE, 0, true, Ack(1), 2, [7], false)
      && s.net.requests == {Port} && s.net.sessions.Keys == {Port}
  {
    AfterAnnouncement();
    AfterOpening();
    OneBlock(DEFAULT_SIZE);
    assert After(8).client == After(7).client;
    assert After(8).net == After(7).net.(sessions := map[Port := Session(DEFAULT_SIZE, true, 1)],
                                         inbox := {(Port, Oack(0, [TSize(1)])), (Port, Data(1, [7]))});
    assert [] + [7] == [7];
    assert After(9).client == Client(Port, 1, 1, 1, DEFAULT_SIZE, 0, true, Ack(1), 1, [7], false);
  }

  lemma AfterSecondSession()
    ensures var c := After(13).client; c.filemax == 2 && c.received == OneByte && c.eof && !c.closed
  {
    AfterFirstSession();
    OneBlock(DEFAULT_SIZE);
    var p := Port + 1;
    assert After(11).client == Reopened(After(10).client);
    assert After(11).net == After(10).net.(requests := {Port, p});
    assert After(12).client == After(11).client && (p, Data(1, [7])) in After(12).net.inbox;
    assert [] + [7] == [7];
  }

  /** The size is counted twice: all of the file has been read, and the client believes that it has
      two bytes. */
  lemma SizeCountedTwice()
    ensures CountedTwice(OneByte, 2, DoubleRun)
    ensures var c := Run(OneByte, Start, DoubleRun).client;
      c.received == OneByte && c.eof && !c.closed && c.filemax == 2 * |OneByte|
  {
    hide After, Run, AnnouncedLate;
    AfterSecondSession();
    AfterIsRun(13);
    assert DoubleRun[..13] == DoubleRun;
    OpensAt();
    LateHere();
    assert !AnnouncedSince(OneByte, 10, DoubleRun);
  }

  lemma LateHere()
    ensures AnnouncedLate(OneByte, 2, DoubleRun[..10])
  {
    hide After, Run;
    AfterAnnouncement();
    AfterIsRun(6);
    var u := DoubleRun[..10];
    assert u[..6] == DoubleRun[..6] && AnnouncesAt(OneByte, u, 6) && IsStray(u[3]);
    assert !AnnouncedSince(OneByte, 2, u[..3]);
  }

  lemma OpensAt()
    ensures UntilOpen(DoubleRun, 2) == 10
  {
    assert UntilOpen(DoubleRun, 10) == 10;
    assert UntilOpen(DoubleRun, 8) == 10;
    assert UntilOpen(DoubleRun, 6) == 10;
    assert UntilOpen(DoubleRun, 4) == 10;
  }
}

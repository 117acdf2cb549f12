/**
 The client of netboot/fsys_tftp.c: `buf_fill` over the protocol of `TftpProtocol`, and on top of it
 `tftp_read` and `tftp_dir`, which see the file through a buffer of 32 Kbytes.
 The network is whatever the schedule says; every claim holds for every schedule.
 */
module TftpClient {
  import opened TftpProtocol
  import opened TftpSafety
  import opened TftpSize

  const FSYS_BUFLEN: nat := 0x8000
  const HALF: nat := FSYS_BUFLEN / 2

  datatype EnvEvent = Server(e: ServerEvent) | Wire(pkt: Packet) | Silence | Interrupt

  datatype Reply = Got(pkt: Packet) | TimedOut | Interrupted

  // ---------- What one call of buf_fill can do to the client

  /** `t1` continues the run `t0` without opening the file again. */
  ghost predicate Continues(t0: seq<Event>, t1: seq<Event>) {
    t0 <= t1 && NoReopening(t1[|t0|..])
  }

  lemma ContinuesOnce(t0: seq<Event>, t1: seq<Event>, e: Event)
    requires Continues(t0, t1) && !e.Open?
    ensures Continues(t0, t1 + [e])
  {
    assert (t1 + [e])[|t0|..] == t1[|t0|..] + [e];
  }

  /** The size after the part of the run from `m` on. */
  ghost predicate Sized(f: File, m: nat, t: seq<Event>, before: int, after: int) {
    after == if AnnouncedSince(f, m, t) then |f| else before
  }

  lemma SizedReflexive(f: File, t: seq<Event>, size: int)
    ensures Sized(f, |t|, t, size, size)
  {
    NothingAnnounced(f, t);
  }

  lemma SizedTransitive(f: File, m: nat, n: nat, t: seq<Event>, before: int, between: int, after: int)
    requires m <= n <= |t| && Sized(f, m, t[..n], before, between) && Sized(f, n, t, between, after)
    ensures Sized(f, m, t, before, after)
  {
    AnnouncedSplit(f, m, n, t);
  }

  lemma StillSized(f: File, m: nat, n: nat, t: seq<Event>, size: int)
    requires m <= n <= |t| && !AnnouncedSince(f, m, t[..n]) && !AnnouncedSince(f, n, t)
    ensures Sized(f, m, t, size, size)
  {
    AnnouncedSplit(f, m, n, t);
  }

  lemma SizedByEvent(f: File, m: nat, t: seq<Event>, e: Event, s: System, before: int, after: int, skip: bool)
    requires m <= |t| && !AnnouncedSince(f, m, t) && s == Run(f, Start, t)
    requires skip || after == if Announces(s, e) then |f| else before
    ensures skip || Sized(f, m, t + [e], before, after)
  {
    AnnouncedOneMore(f, m, t, e);
  }

  lemma ContinuesMeans(t0: seq<Event>, t1: seq<Event>)
    requires Continues(t0, t1)
    ensures |t0| <= |t1| && t1[..|t0|] == t0 && NoReopening(t1[|t0|..])
  {
  }

  /** One more event in the run. */
  lemma Recorded(f: File, t0: seq<Event>, t: seq<Event>, e: Event)
    requires Continues(t0, t)
    ensures Run(f, Start, t + [e]) == Step(f, Run(f, Start, t), e)
    ensures Heard(t + [e]) == Heard(t) + HeardIn(e)
    ensures AnnouncedSince(f, |t0|, t + [e]) <==> AnnouncedSince(f, |t0|, t) || Announces(Run(f, Start, t), e)
    ensures !e.Open? ==> Continues(t0, t + [e])
  {
    hide Run, Heard, AnnouncedSince, Announces, NoReopening;
    RunOneMore(f, Start, t, e);
    HeardOneMore(t, e);
    AnnouncedOneMore(f, |t0|, t, e);
    if !e.Open? { ContinuesOnce(t0, t, e); }
  }

  lemma ContinuesReflexive(t: seq<Event>)
    ensures Continues(t, t)
  {
  }

  lemma ContinuesTransitive(t0: seq<Event>, t1: seq<Event>, t2: seq<Event>)
    requires Continues(t0, t1) && Continues(t1, t2)
    ensures Continues(t0, t2)
  {
    assert t2[|t0|..] == t1[|t0|..] + t2[|t1|..];
  }

  /** Bytes are only added; unless the call is to abort, the transfer is not called off, and the file
      size is settled once the first block is stored. */
  ghost predicate Grows(file: File, c0: Client, c1: Client, abort: bool) {
    && c0.received <= c1.received
    && c1.filemax in {c0.filemax, |file|}
    && (!abort ==> c1.closed == c0.closed && (c0.prevblock > 0 ==> c1.prevblock > 0 && c1.filemax == c0.filemax))
  }

  lemma GrowsReflexive(file: File, c: Client, abort: bool)
    ensures Grows(file, c, c, abort)
  {
  }

  lemma GrowsOnRetry(file: File, c0: Client, c1: Client, abort: bool)
    requires c1 == c0.(iport := c1.iport, retry := c1.retry)
    ensures Grows(file, c0, c1, abort)
  {
  }

  lemma GrowsTransitive(file: File, c0: Client, c1: Client, c2: Client, abort: bool)
    requires Grows(file, c0, c1, abort) && Grows(file, c1, c2, abort)
    ensures Grows(file, c0, c2, abort)
  {
  }

  lemma ReceiveGrows(file: File, c: Client, pkt: Packet, abort: bool)
    requires Receive(c, pkt, abort).0.filemax in {c.filemax, |file|} && c.bcounter == c.prevblock <= 0xFFFF
    ensures Grows(file, c, Receive(c, pkt, abort).0, abort) && c.received <= Receive(c, pkt, abort).0.received
  {
  }

  lemma ArrivalStep(file: File, s: System, pkt: Packet, abort: bool)
    requires !s.client.eof && Deliverable(s.net, s.client.iport, pkt)
    ensures var (c, action) := Receive(s.client, pkt, abort);
      && c.iport == s.client.iport && (action.Aborted? ==> abort) && (action.Stopped? ==> pkt.OtherOpcode?)
      && Step(file, s, Arrival(pkt, abort))
         == System(c, if action.Acked? then s.net.(acks := s.net.acks + {(c.iport, action.block)}) else s.net)
  {
  }

  lemma OpenStep(file: File, s: System, linkUp: bool)
    ensures Step(file, s, Open(linkUp))
         == System(Reopened(s.client), if linkUp then s.net.(requests := s.net.requests + {s.client.iport + 1}) else s.net)
  {
  }

  /** The part of the file that has been copied grows by what was taken from the buffer. */
  lemma Joined(file: File, addr: array<byte>, start: nat, done: nat, amt: nat)
    requires start + done + amt <= |file| && done + amt <= addr.Length
    requires addr[..done] == file[start..start + done] && addr[done..done + amt] == file[start + done..start + done + amt]
    ensures addr[..done + amt] == file[start..start + done + amt]
  {
    assert addr[..done + amt] == addr[..done] + addr[done..done + amt];
  }

  // ---------- The run and the schedule

  /** What a schedule says that the run records: what servers do and which packets arrive. */
  function Said(schedule: seq<EnvEvent>): seq<EnvEvent> {
    if schedule == [] then []
    else (if schedule[0].Server? || schedule[0].Wire? then schedule[..1] else []) + Said(schedule[1..])
  }

  /** What a run has heard of that. */
  function Heard(t: seq<Event>): seq<EnvEvent> {
    if t == [] then [] else Heard(t[..|t| - 1]) + HeardIn(t[|t| - 1])
  }

  function HeardIn(e: Event): seq<EnvEvent> {
    match e
    case ServerStep(se) => [Server(se)]
    case Arrival(pkt, _) => [Wire(pkt)]
    case _ => []
  }

  lemma HeardOneMore(t: seq<Event>, e: Event)
    ensures Heard(t + [e]) == Heard(t) + HeardIn(e)
  {
    assert (t + [e])[..|t|] == t;
  }

  /** The next entry of the schedule has been dealt with. */
  lemma SaidNext(schedule: seq<EnvEvent>, heard: seq<EnvEvent>)
    requires schedule != []
    ensures var e := schedule[0]; var p := if e.Server? || e.Wire? then [e] else [];
      Said(schedule) == p + Said(schedule[1..]) && heard + Said(schedule) == heard + p + Said(schedule[1..])
  {
    var p, q := if schedule[0].Server? || schedule[0].Wire? then schedule[..1] else [], Said(schedule[1..]);
    assert schedule[..1] == [schedule[0]];
    assert Said(schedule) == p + q;
    Regroup(heard, p, q);
  }

  lemma Regroup(a: seq<EnvEvent>, b: seq<EnvEvent>, c: seq<EnvEvent>)
    ensures a + (b + c) == a + b + c
    ensures [] + c == c && a + [] == a
  {
  }

  lemma {:induction false} HeardSince(m: nat, t: seq<Event>)
    requires m <= |t|
    ensures Heard(t[..m]) <= Heard(t)
    ensures forall k :: m <= k < |t| && t[k].Arrival? ==> Wire(t[k].pkt) in Heard(t)[|Heard(t[..m])|..]
    decreases |t|
  {
    if m == |t| {
      assert t[..m] == t;
    } else {
      var u, e := t[..|t| - 1], t[|t| - 1];
      HeardSince(m, u);
      assert u[..m] == t[..m] && t == u + [e];
      HeardOneMore(u, e);
      var n := |Heard(t[..m])|;
      assert Heard(t)[n..] == Heard(u)[n..] + HeardIn(e);
      forall k | m <= k < |t| && t[k].Arrival? ensures Wire(t[k].pkt) in Heard(t)[n..] {
        if k < |u| { assert u[k] == t[k]; }
      }
    }
  }

  lemma {:induction false} SaidIsScheduled(schedule: seq<EnvEvent>, e: EnvEvent)
    requires e in Said(schedule)
    ensures e in schedule
  {
    if schedule != [] && e !in schedule[..1] { SaidIsScheduled(schedule[1..], e); }
  }

  /** No server announces a size. */
  predicate NoneTells(schedule: seq<EnvEvent>) {
    forall i :: 0 <= i < |schedule| ==>
      !(schedule[i].Wire? && schedule[i].pkt.Oack? && TellsSize(schedule[i].pkt.options))
  }

  /** So every packet that arrived in a call was in the schedule when it began. */
  lemma ArrivalsAreScheduled(told: seq<EnvEvent>, m: nat, t: seq<Event>, before: seq<EnvEvent>, after: seq<EnvEvent>)
    requires m <= |t| && Heard(t[..m]) + Said(before) == told == Heard(t) + Said(after)
    ensures forall k :: m <= k < |t| && t[k].Arrival? ==> Wire(t[k].pkt) in before
  {
    hide Heard, Said;
    HeardSince(m, t);
    var n := |Heard(t[..m])|;
    assert Said(before) == told[n..] == Heard(t)[n..] + Said(after);
    forall k | m <= k < |t| && t[k].Arrival? ensures Wire(t[k].pkt) in before {
      assert Wire(t[k].pkt) in Said(before);
      SaidIsScheduled(before, Wire(t[k].pkt));
    }
  }

  // ---------- Adding up the size

  /** What an announcement heard while the lengths are added up adds to the sum. */
  ghost function Extra(f: File, m: nat, t: seq<Event>): nat {
    if AnnouncedSince(f, m, t) then |f| else 0
  }

  lemma NoExtra(f: File, m: nat, t: seq<Event>)
    requires !AnnouncedSince(f, m, t)
    ensures Extra(f, m, t) == 0
  {
  }

  lemma SameExtra(f: File, m: nat, n: nat, t: seq<Event>)
    requires m <= n <= |t| && !AnnouncedSince(f, n, t)
    ensures Extra(f, m, t) == Extra(f, m, t[..n])
  {
    AnnouncedSplit(f, m, n, t);
  }

  /** The sum stands for `base` bytes at `n1`, is written at `n2`, and then the buffer is filled.  An
      announcement is only heard while nothing is stored, and then the sum was 0. */
  lemma ExtraAfter(f: File, m: nat, n1: nat, n2: nat, t: seq<Event>, base: nat, size: int, filemax: int, received: seq<byte>)
    requires m <= n1 <= n2 <= |t| && NoReopening(t[n2..])
    requires !AnnouncedSince(f, n1, t[..n2]) && size == base + Extra(f, m, t[..n1])
    requires Sized(f, n2, t, size, filemax)
    requires Run(f, Start, t[..n2]).client.received == received && base == |received|
    ensures filemax == base + Extra(f, m, t)
  {
    hide Run;
    assert t[..n2][..n1] == t[..n1];
    AnnouncedSplit(f, m, n1, t[..n2]);
    AnnouncedSplit(f, m, n2, t);
    if AnnouncedSince(f, n2, t) {
      AnnouncedEarly(f, n2, t);
      NothingStored(f, t[..n2]);
    }
  }

  lemma OneOpening(f: File, m: nat, t: seq<Event>)
    requires m <= |t| && NoReopening(t[m..])
    ensures !CountedTwice(f, m, t)
  {
    forall i | m <= i < |t| ensures !t[i].Open? { assert t[m..][i - m] == t[i]; }
  }

  lemma AnnouncedMeansSized(f: File, m: nat, t: seq<Event>, filemax: int)
    requires m <= |t| && Sized(f, m, t, -1, filemax)
    ensures filemax == -1 || filemax == |f|
    ensures filemax == -1 <==> !AnnouncedSince(f, m, t)
  {
  }

  /** The size after two sessions: the second begins at `n2`, and in the first the buffer was filled
      once until `n1`, and then the lengths were added up. */
  lemma DirSize(f: File, m: nat, n1: nat, n2: nat, t: seq<Event>, filemax: int, prevblock: nat, stray: bool)
    requires m <= n1 <= n2 < |t| && NoReopening(t[m..n1]) && NoReopening(t[n1..n2]) && t[n2].Open?
    requires !AnnouncedSince(f, m, t[..n1]) && Run(f, Start, t[..n1]).client.prevblock == prevblock
    requires stray || prevblock > 0
    requires stray ==> n1 > m && IsStray(t[n1 - 1])
    requires Sized(f, n2 + 1, t, |f| + Extra(f, n1, t[..n2]), filemax)
    ensures filemax == if CountedTwice(f, m, t) then 2 * |f| else |f|
  {
    hide Run, AnnouncesAt;
    var u := t[..n2];
    assert u[..n1] == t[..n1] && u[n1..] == t[n1..n2];
    assert UntilOpen(t, m) == n2 by {
      forall i | m <= i < n2 ensures !t[i].Open? {
        if i < n1 { assert t[m..n1][i - m] == t[i]; } else { assert t[n1..n2][i - n1] == t[i]; }
      }
    }
    OpenAnnouncesNothing(f, n2, t);
    if AnnouncedSince(f, n1, u) { AnnouncedEarly(f, n1, u); }
    LateIff(f, m, n1, u);
  }

  lemma OpenAnnouncesNothing(f: File, n: nat, t: seq<Event>)
    requires n < |t| && t[n].Open?
    ensures AnnouncedSince(f, n, t) <==> AnnouncedSince(f, n + 1, t)
  {
    if k :| n <= k < |t| && AnnouncesAt(f, t, k) { assert k != n; }
  }

  /** With no announcement before `n1`, one after it is late exactly if a stray packet came first. */
  lemma LateIff(f: File, m: nat, n1: nat, u: seq<Event>)
    requires m <= n1 <= |u| && !AnnouncedSince(f, m, u[..n1])
    requires AnnouncedSince(f, n1, u) ==> n1 > m && IsStray(u[n1 - 1])
    ensures AnnouncedLate(f, m, u) <==> AnnouncedSince(f, n1, u)
  {
    AnnouncedSplit(f, m, n1, u);
    if AnnouncedSince(f, n1, u) {
      var k :| n1 <= k < |u| && AnnouncesAt(f, u, k);
      var j := n1 - 1;
      assert u[..n1][..j] == u[..j];
      AnnouncedSplit(f, m, j, u[..n1]);
      assert !AnnouncedSince(f, m, u[..j]);
    }
    if AnnouncedLate(f, m, u) {
      var j, k :| m <= j < k < |u| && IsStray(u[j]) && AnnouncesAt(f, u, k) && !AnnouncedSince(f, m, u[..j]);
      assert AnnouncedSince(f, m, u);
    }
  }

  lemma NothingStored(f: File, t: seq<Event>)
    requires Run(f, Start, t).client.prevblock == 0
    ensures Run(f, Start, t).client.received == []
  {
    StartInv(f);
    RunKeepsInv(f, Start, t);
  }

  // ---------- A network that keeps delivering

  /** A packet of the transfer whose options, if any, are acceptable. */
  predicate CalmPacket(pkt: Packet) {
    match pkt
    case Data(_, _) => true
    case Oack(length, options) =>
      length <= MAX_PACKET && forall i :: 0 <= i < |options| ==>
        (match options[i] case BlkSize(n) => n >= DEFAULT_SIZE case TSize(n) => n >= 0 case Unknown => false)
    case _ => false
  }

  /** Until the schedule ends, something arrives every time, and it is not bad news. */
  predicate Calm(schedule: seq<EnvEvent>) {
    forall i :: 0 <= i < |schedule| ==>
      match schedule[i] case Server(_) => true case Wire(pkt) => CalmPacket(pkt) case _ => false
  }

  /** The client gives up only at bad news. */
  lemma CalmIsAccepted(c: Client, pkt: Packet, abort: bool)
    requires CalmPacket(pkt)
    ensures var action := Receive(c, pkt, abort).1;
      action.Acked? || action.Ignored? || action.Aborted?
  {
    if pkt.Oack? { AllTaken(c.packetsize, c.filemax, pkt.options); }
  }

  lemma {:induction false} AllTaken(packetsize: int, filemax: int, options: seq<OackOption>)
    requires CalmPacket(Oack(0, options))
    ensures Negotiate(packetsize, filemax, options).2
    decreases |options|
  {
    if options != [] {
      AllTaken(match options[0] case BlkSize(n) => n case _ => packetsize,
               match options[0] case TSize(n) => n case _ => filemax, options[1..]);
    }
  }

  /** The network may also be silent, at most `n` times and only before a packet comes. */
  predicate Patient(schedule: seq<EnvEvent>, n: int) {
    schedule == [] ||
    match schedule[0]
    case Server(_) => Patient(schedule[1..], n)
    case Wire(_) => Calm(schedule)
    case Silence => n > 0 && Patient(schedule[1..], n - 1)
    case Interrupt => false
  }

  lemma {:induction false} CalmIsPatient(schedule: seq<EnvEvent>, n: int)
    requires Calm(schedule)
    ensures Patient(schedule, n)
    decreases |schedule|
  {
    if schedule != [] { CalmIsPatient(schedule[1..], n); }
  }

  lemma NothingIsPatient(n: int)
    ensures Calm([]) && Patient([], n)
  {
  }

  lemma {:induction false} MorePatient(schedule: seq<EnvEvent>, m: int, n: int)
    requires Patient(schedule, m) && m <= n
    ensures Patient(schedule, n)
    decreases |schedule|
  {
    if schedule != [] {
      if schedule[0].Server? { MorePatient(schedule[1..], m, n); }
      if schedule[0].Silence? { MorePatient(schedule[1..], m - 1, n - 1); }
    }
  }

  // ---------- Bad news

  /** The packet that arrives makes the client give up. */
  predicate BadNews(s: System, e: Event) {
    && e.Arrival? && !s.client.eof && Deliverable(s.net, s.client.iport, e.pkt)
    && var action := Receive(s.client, e.pkt, e.abort).1;
       action.Failed? || action.Refused? || action.Stopped?
  }

  ghost predicate BadNewsAt(f: File, t: seq<Event>, k: nat)
    requires k < |t|
  {
    BadNews(Run(f, Start, t[..k]), t[k])
  }

  ghost predicate GoodNews(f: File, m: nat, t: seq<Event>) {
    forall k :: m <= k < |t| ==> !BadNewsAt(f, t, k)
  }

  lemma GoodNewsSplit(f: File, m: nat, n: nat, t: seq<Event>)
    requires m <= n <= |t|
    ensures GoodNews(f, m, t) <==> GoodNews(f, m, t[..n]) && GoodNews(f, n, t)
  {
    forall k | m <= k < n ensures BadNewsAt(f, t[..n], k) <==> BadNewsAt(f, t, k) { assert t[..n][..k] == t[..k]; }
  }

  lemma GoodNewsOneMore(f: File, m: nat, t: seq<Event>, e: Event)
    requires m <= |t|
    ensures GoodNews(f, m, t + [e]) <==> GoodNews(f, m, t) && !BadNews(Run(f, Start, t), e)
    ensures BadNewsAt(f, t + [e], |t|) <==> BadNews(Run(f, Start, t), e)
    ensures (t + [e])[..|t|] == t
  {
    hide BadNews, Run;
    var u := t + [e];
    assert u[..|t|] == t && u[|t|] == e;
    GoodNewsSplit(f, m, |t|, u);
    assert BadNewsAt(f, u, |t|) <==> BadNews(Run(f, Start, t), e);
    if GoodNews(f, m, t) && !BadNews(Run(f, Start, t), e) {
      forall k | |t| <= k < |u| ensures !BadNewsAt(f, u, k) { assert k == |t|; }
    }
  }

  lemma NoNews(f: File, t: seq<Event>)
    ensures GoodNews(f, |t|, t)
  {
  }

  /** What has ended the waiting, when it began at the event `m` with the schedule `before`: a packet of
      bad news, and none came before it; or an interrupt; or a timeout when there was nothing to send
      again, or no way to, or no more than 20 times had not been enough. */
  ghost predicate Ended(f: File, m: nat, t: seq<Event>, before: seq<EnvEvent>, after: seq<EnvEvent>, c: Client) {
    || (|t| > m && GoodNews(f, m, t[..|t| - 1]) && BadNewsAt(f, t, |t| - 1))
    || (GoodNews(f, m, t) && |after| < |before| && before[|before| - |after| - 1].Interrupt?)
    || (GoodNews(f, m, t) && |t| > m && t[|t| - 1].Timeout? && (!t[|t| - 1].linkUp || c.block != 0 || c.retry > 20))
  }

  lemma InterruptEnds(f: File, m: nat, t: seq<Event>, before: seq<EnvEvent>, after: seq<EnvEvent>, c: Client)
    requires GoodNews(f, m, t) && |after| < |before| && before[|before| - |after| - 1].Interrupt?
    ensures Ended(f, m, t, before, after, c)
  {
  }

  lemma TimeoutEnds(f: File, m: nat, t: seq<Event>, before: seq<EnvEvent>, after: seq<EnvEvent>, c: Client)
    requires GoodNews(f, m, t) && |t| > m && t[|t| - 1].Timeout? && (!t[|t| - 1].linkUp || c.block != 0 || c.retry > 20)
    ensures Ended(f, m, t, before, after, c)
  {
  }

  lemma PacketEnds(f: File, m: nat, t: seq<Event>, e: Event, before: seq<EnvEvent>, after: seq<EnvEvent>, c: Client)
    requires m <= |t| && GoodNews(f, m, t) && BadNews(Run(f, Start, t), e)
    ensures Ended(f, m, t + [e], before, after, c)
  {
    GoodNewsOneMore(f, m, t, e);
  }

  lemma EndedLater(f: File, m: nat, n: nat, t: seq<Event>, before0: seq<EnvEvent>, before: seq<EnvEvent>, after: seq<EnvEvent>, c: Client)
    requires m <= n <= |t| && GoodNews(f, m, t[..n]) && Ended(f, n, t, before, after, c)
    requires Suffix(before0, before) && Suffix(before, after)
    ensures Ended(f, m, t, before0, after, c)
  {
    GoodNewsSplit(f, m, n, t);
    if |t| > n {
      assert t[..|t| - 1][..n] == t[..n];
      GoodNewsSplit(f, m, n, t[..|t| - 1]);
    }
    if |after| < |before| { assert before[|before| - |after| - 1] == before0[|before0| - |after| - 1]; }
  }

  /** `b` is what is left of `a`. */
  predicate Suffix(a: seq<EnvEvent>, b: seq<EnvEvent>) {
    |b| <= |a| && b == a[|a| - |b|..]
  }

  lemma WholeSuffix(a: seq<EnvEvent>)
    ensures Suffix(a, a)
  {
  }

  lemma CalmNext(schedule: seq<EnvEvent>)
    requires schedule != []
    ensures Calm(schedule) ==> Calm(schedule[1..]) && (schedule[0].Wire? ==> CalmPacket(schedule[0].pkt))
    ensures Calm(schedule) ==> !schedule[0].Silence? && !schedule[0].Interrupt?
    ensures forall n :: Calm(schedule[1..]) ==> Patient(schedule[1..], n)
  {
    forall n | Calm(schedule[1..]) ensures Patient(schedule[1..], n) { CalmIsPatient(schedule[1..], n); }
  }

  lemma SuffixTransitive(a: seq<EnvEvent>, b: seq<EnvEvent>, c: seq<EnvEvent>)
    requires Suffix(a, b) && Suffix(b, c)
    ensures Suffix(a, c)
  {
  }

  lemma SuffixTail(a: seq<EnvEvent>, b: seq<EnvEvent>)
    requires Suffix(a, b) && b != []
    ensures Suffix(a, b[1..]) && a[|a| - |b[1..]| - 1] == b[0]
  {
  }

  lemma GrowsOpen(file: File, c0: Client, c1: Client)
    requires Grows(file, c0, c1, false)
    ensures c1.closed == c0.closed
  {
  }

  // ---------- The amount that tftp_read copies

  /** Line 363: the `int` amount is compared with the `unsigned long` size. */
  function CutDown(available: int, size: nat): int {
    if available % 0x1_0000_0000 > size then size else available
  }

  /** Where the file position may be for the next read: in the buffer or right behind it; or, when it
      is before the buffer and the file is opened again, at the start of the file. */
  predicate Reachable(bufRead: int, savedFilepos: nat, filepos: nat) {
    if filepos < savedFilepos then filepos == 0 else filepos <= savedFilepos + bufRead
  }

  /** The first copy of `tftp_read` takes only bytes that were received exactly when the position is
      reachable: otherwise the negative amount counts as a huge one, and stale bytes are copied. */
  lemma CopiesReceivedBytesIff(bufRead: nat, savedFilepos: nat, filepos: nat, size: nat)
    requires bufRead <= FSYS_BUFLEN && filepos < 0x7FFF_0000 && savedFilepos < 0x7FFF_0000 && 0 < size < 0x8000_0000
    ensures var start, have := if filepos < savedFilepos then 0 else savedFilepos, if filepos < savedFilepos then 0 else bufRead;
      var amt := CutDown(have + start - filepos, size);
      (amt <= 0 || filepos + amt <= start + have) <==> Reachable(bufRead, savedFilepos, filepos)
  {
    var start, have := if filepos < savedFilepos then 0 else savedFilepos, if filepos < savedFilepos then 0 else bufRead;
    var available := have + start - filepos;
    if available < 0 {
      assert available % 0x1_0000_0000 == available + 0x1_0000_0000;
    }
  }

  /** Such a read: the file was opened again for a seek back to offset 10, and nothing has arrived. */
  lemma BackwardSeekCopiesStaleBytes()
    ensures !Reachable(0x4000, 0x4000, 10) && CutDown(0 + 0 - 10, 10) == 10
  {
  }

  datatype Turned = Again | Done | Stray | Fail

  class Tftp {
    const file: File             // at the server
    const buf: array<byte>
    var retry: nat
    var iport: nat
    var block: nat
    var prevblock: nat
    var bcounter: nat
    var packetsize: int
    var tp: Outgoing
    var bufEof: bool
    var bufRead: int
    var savedFilepos: nat
    var filepos: nat
    var filemax: int
    var net: Net
    var schedule: seq<EnvEvent>  // what the environment will do
    ghost var received: seq<byte>
    ghost var closed: bool
    ghost var base: nat          // how many of the received bytes have left the buffer
    ghost var trace: seq<Event>
    ghost const told: seq<EnvEvent>  // the schedule from the start

    ghost function Now(): Client
      reads this
    {
      Client(iport, block, prevblock, bcounter, packetsize, retry, bufEof, tp, filemax, received, closed)
    }

    /** The buffer holds the received bytes from `base` on. */
    ghost predicate Windowed()
      reads this, buf
    {
      && buf.Length == FSYS_BUFLEN
      && 0 <= bufRead <= FSYS_BUFLEN
      && base + bufRead == |received|
      && buf[..bufRead] == received[base..]
    }

    /** What the client has done is a run of the protocol, and it is the run that the schedule has
        told, up to the packets `held` that the client has yet to deal with. */
    ghost predicate FollowsUpTo(held: seq<EnvEvent>)
      reads this
    {
      && System(Now(), net) == Run(file, Start, trace)
      && Heard(trace) + (held + Said(schedule)) == Said(told)
    }

    ghost predicate Follows()
      reads this
    {
      FollowsUpTo([])
    }

    ghost predicate Valid()
      reads this, buf
    {
      Windowed() && Follows()
    }

    constructor (file: File, schedule: seq<EnvEvent>)
      ensures Valid() && this.file == file && fresh(buf) && savedFilepos == base == 0 == bufRead
      ensures buf.Length == 0x8000 && this.schedule == schedule
      ensures forall i :: 0 <= i < buf.Length ==> buf[i] == 0
    {
      this.file, this.schedule := file, schedule;
      buf := new byte[FSYS_BUFLEN](_ => 0);
      iport, block, prevblock, bcounter, packetsize, retry := 2000, 0, 0, 0, DEFAULT_SIZE, 0;
      tp, bufEof, bufRead, savedFilepos, filepos, filemax := Complaint, false, 0, 0, 0, 0;
      net, received, closed, base, trace, told := Start.net, [], true, 0, [], schedule;
    }

    /** `await_reply`: the server does what it does, until a packet comes or nothing does. */
    method AwaitReply() returns (r: Reply)
      requires Follows()
      modifies this`net, this`schedule, this`trace
      ensures FollowsUpTo(if r.Got? then [Wire(r.pkt)] else []) && Continues(old(trace), trace)
      ensures |schedule| <= |old(schedule)|
      ensures r.Got? ==> Deliverable(net, iport, r.pkt) && |schedule| < |old(schedule)|
      ensures !AnnouncedSince(file, |old(trace)|, trace) && GoodNews(file, |old(trace)|, trace)
      ensures Suffix(old(schedule), schedule)
      ensures r.Interrupted? ==> |schedule| < |old(schedule)| && old(schedule)[|old(schedule)| - |schedule| - 1].Interrupt?
      ensures Calm(old(schedule)) ==>
        Calm(schedule) && match r case Got(pkt) => CalmPacket(pkt) case TimedOut => schedule == [] case Interrupted => false
      ensures forall n :: Patient(old(schedule), n) ==>
        match r
        case Got(pkt) => CalmPacket(pkt) && Calm(schedule)
        case TimedOut => schedule == [] || (n > 0 && Patient(schedule, n - 1))
        case Interrupted => false
    {
      hide Run, Continues, Heard, Said, AnnouncedSince, GoodNews, Receive, Suffix, CalmPacket;
      ContinuesReflexive(trace);
      NothingAnnounced(file, trace);
      NoNews(file, trace);
      WholeSuffix(schedule);
      while |schedule| > 0
        invariant Follows() && Continues(old(trace), trace) && |schedule| <= |old(schedule)|
        invariant old(trace) <= trace && !AnnouncedSince(file, |old(trace)|, trace) && GoodNews(file, |old(trace)|, trace)
        invariant Suffix(old(schedule), schedule)
        invariant Calm(old(schedule)) ==> Calm(schedule)
        invariant forall n :: Patient(old(schedule), n) ==> Patient(schedule, n)
        decreases |schedule|
      {
        var e := schedule[0];
        SaidNext(schedule, Heard(trace));
        SuffixTail(old(schedule), schedule);
        Regroup(Heard(trace), [], Said(schedule[1..]));
        CalmNext(schedule);
        schedule := schedule[1..];
        match e
        case Server(se) =>
          Recorded(file, old(trace), trace, ServerStep(se));
          GoodNewsOneMore(file, |old(trace)|, trace, ServerStep(se));
          net := Serve(file, net, se);
          trace := trace + [ServerStep(se)];
        case Wire(pkt) =>
          if Deliverable(net, iport, pkt) { return Got(pkt); }
          Recorded(file, old(trace), trace, Arrival(pkt, false));
          GoodNewsOneMore(file, |old(trace)|, trace, Arrival(pkt, false));
          trace := trace + [Arrival(pkt, false)];
        case Silence => return TimedOut;
        case Interrupt => return Interrupted;
      }
      return TimedOut;
    }

    /** The option loop: lines 132 to 183. */
    method TakeOptions(options: seq<OackOption>) returns (ok: bool)
      modifies this`packetsize, this`filemax
      ensures (packetsize, filemax, ok) == Negotiate(old(packetsize), old(filemax), options)
    {
      var i := 0;
      while i < |options|
        invariant 0 <= i <= |options|
        invariant Negotiate(packetsize, filemax, options[i..]) == Negotiate(old(packetsize), old(filemax), options)
      {
        assert options[i..][1..] == options[i + 1..];
        match options[i] {
          case BlkSize(n) =>
            packetsize := n;
            if packetsize < DEFAULT_SIZE { return false; }
          case TSize(n) =>
            filemax := n;
            if filemax < 0 {
              filemax := -1;
              return false;
            }
          case Unknown =>
            return false;
        }
        i := i + 1;
      }
      return true;
    }

    /** `grub_memmove` into the buffer. */
    method Append(payload: seq<byte>)
      requires Windowed() && bufRead + |payload| <= FSYS_BUFLEN
      modifies this`bufRead, this`received, buf
      ensures Windowed() && received == old(received) + payload
    {
      ghost var before := buf[..bufRead];
      var i := 0;
      while i < |payload|
        modifies buf
        invariant 0 <= i <= |payload|
        invariant buf[..bufRead + i] == before + payload[..i]
      {
        buf[bufRead + i] := payload[i];
        i := i + 1;
        assert payload[..i] == payload[..i - 1] + [payload[i - 1]];
      }
      assert payload[..|payload|] == payload;
      bufRead := bufRead + |payload|;
      received := received + payload;
      assert received[base..] == before + payload;
    }

    /** A new block: lines 237 to 251. */
    method Store(payload: seq<byte>)
      requires Windowed() && bufRead + |payload| <= FSYS_BUFLEN
      modifies this`prevblock, this`bcounter, this`retry, this`bufEof, this`bufRead, this`received, buf
      ensures Windowed()
      ensures Now() == old(Now()).(prevblock := block, retry := 0, bcounter := old(bcounter) + 1,
                                   received := old(received) + payload, eof := old(bufEof) || |payload| < packetsize)
    {
      prevblock := block;
      retry := 0;
      bcounter := bcounter + 1;
      Append(payload);
      if |payload| < packetsize {
        bufEof := true;
      }
    }

    /** Lines 211 to 251, for a packet that says it is block `wire`. */
    method Acknowledge(wire: nat, payload: seq<byte>, abort: bool) returns (action: Action)
      requires Windowed() && bufRead + |payload| <= FSYS_BUFLEN
      modifies this`block, this`prevblock, this`bcounter, this`retry, this`tp, this`bufEof, this`bufRead,
               this`net, this`received, this`closed, buf
      ensures Windowed() && (Now(), action) == Answer(old(Now()), wire, payload, abort)
      ensures net == if action.Acked? then old(net).(acks := old(net.acks) + {(iport, action.block)}) else old(net)
      ensures abort ==> buf[..] == old(buf[..])
    {
      block := wire;
      if (block != 0 || bcounter != 0) && block != prevblock + 1 {
        block := prevblock;
      }
      tp := if abort then Complaint else Ack(block);
      if abort {
        bufEof, closed := true, true;
        return Aborted;
      }
      net := net.(acks := net.acks + {(iport, block)});
      if (block - prevblock) % 0x1_0000 == 1 {
        Store(payload);
      }
      return Acked(block);
    }

    /** One turn of the loop of `buf_fill`, for the packet that came: lines 103 to 251. */
    method HandlePacket(pkt: Packet, abort: bool) returns (action: Action)
      requires Windowed() && bufRead + packetsize <= FSYS_BUFLEN
      modifies this`block, this`prevblock, this`bcounter, this`packetsize, this`retry, this`tp, this`bufEof,
               this`bufRead, this`filemax, this`net, this`received, this`closed, buf
      ensures Windowed() && (Now(), action) == Receive(old(Now()), pkt, abort)
      ensures net == if action.Acked? then old(net).(acks := old(net.acks) + {(iport, action.block)}) else old(net)
      ensures abort ==> buf[..] == old(buf[..])
    {
      match pkt
      case Error => return Failed;
      case OtherOpcode => return Stopped;
      case Oack(length, options) =>
        if prevblock != 0 { return Ignored; }
        if length > MAX_PACKET {
          tp := Complaint;
          return Refused;
        }
        var ok := TakeOptions(options);
        if !ok {
          tp := Complaint;
          return Refused;
        }
        action := Acknowledge(0, [], abort);
      case Data(wire, payload) =>
        if |payload| > packetsize { return Ignored; }
        action := Acknowledge(wire, payload, abort);
    }

    /** The timeout branch: lines 70 to 100.  Before the first block the request is sent again, if the
        link is up. */
    method Retry(linkUp: bool) returns (again: bool)
      requires Follows() && !bufEof
      modifies this`retry, this`iport, this`net, this`trace
      ensures Follows() && trace == old(trace) + [Timeout(linkUp)] && Continues(old(trace), trace)
      ensures again <==> linkUp && block == 0 && old(retry) < 20
      ensures retry == old(retry) + (if block == 0 then 1 else 0)
      ensures !AnnouncedSince(file, |old(trace)|, trace) && GoodNews(file, |old(trace)|, trace)
    {
      hide Run, Continues, Heard, Said, AnnouncedSince, Receive;
      again := false;
      if block == 0 {
        retry := retry + 1;
        if retry - 1 < MAX_RETRIES {
          iport := iport + 1;
          if linkUp && tp.Request? {
            net := net.(requests := net.requests + {iport});
          }
          again := linkUp;
        }
      }
      ContinuesReflexive(trace);
      NothingAnnounced(file, trace);
      NoNews(file, trace);
      GoodNewsOneMore(file, |trace|, trace, Timeout(linkUp));
      Recorded(file, trace, trace, Timeout(linkUp));
      trace := trace + [Timeout(linkUp)];
    }

    /** One turn of the loop of `buf_fill`. */
    method Turn(abort: bool) returns (next: Turned, ghost down: bool)
      requires Valid() && !bufEof && bufRead + packetsize <= FSYS_BUFLEN
      modifies this`net, this`schedule, this`trace, this`retry, this`iport, this`block, this`prevblock, this`bcounter,
               this`packetsize, this`tp, this`bufEof, this`bufRead, this`filemax, this`received, this`closed, buf
      ensures Valid() && Continues(old(trace), trace) && Grows(file, old(Now()), Now(), abort)
      ensures old(received) <= received
      ensures next.Done? ==> abort
      ensures abort ==> buf[..] == old(buf[..])
      ensures !abort && !next.Fail? ==> Sized(file, |old(trace)|, trace, old(filemax), filemax)
      ensures next.Stray? ==> |trace| > |old(trace)| && IsStray(trace[|trace| - 1])
      ensures next.Again? || next.Done? ==> GoodNews(file, |old(trace)|, trace)
      ensures next.Fail? || next.Stray? ==> Ended(file, |old(trace)|, trace, old(schedule), schedule, Now())
      ensures down ==> next.Fail? && |trace| > |old(trace)| && trace[|trace| - 1] == Timeout(false)
      ensures old(Endures()) ==> Endures() && !next.Stray? && (next.Fail? ==> schedule == [] || down)
      ensures Suffix(old(schedule), schedule)
      ensures |schedule| < |old(schedule)| || (next.Fail? && |schedule| == |old(schedule)|) ||
        (next.Again? && |schedule| == |old(schedule)| && retry > old(retry) && old(retry) < MAX_RETRIES
         && bufEof == old(bufEof) && bufRead == old(bufRead) && packetsize == old(packetsize))
    {
      hide Run, Step, Receive, Continues, NoReopening, Grows, Calm, CalmPacket, Patient, Heard, Said,
           AnnouncedSince, Announces, GoodNews, BadNews, Suffix, Sized, Ended;
      GrowsReflexive(file, Now(), abort);
      down := false;
      var r := AwaitReply();
      ghost var t1 := trace;
      ContinuesMeans(old(trace), t1);
      if r.Interrupted? {
        InterruptEnds(file, |old(trace)|, trace, old(schedule), schedule, Now());
        return Fail, down;
      }
      if r.TimedOut? {
        var linkUp: bool := *;
        var again := Retry(linkUp);
        ContinuesTransitive(old(trace), t1, trace);
        StillSized(file, |old(trace)|, |t1|, trace, filemax);
        GrowsOnRetry(file, old(Now()), Now(), abort);
        GoodNewsSplit(file, |old(trace)|, |t1|, trace);
        NothingIsPatient(20 - retry);
        if again { return Again, down; }
        TimeoutEnds(file, |old(trace)|, trace, old(schedule), schedule, Now());
        return Fail, !linkUp;
      }
      ghost var s, e := System(Now(), net), Arrival(r.pkt, abort);
      Recorded(file, old(trace), t1, e);
      GoodNewsOneMore(file, |old(trace)|, t1, e);
      next := TakePacket(r.pkt, abort);
      SizedByEvent(file, |old(trace)|, t1, e, s, old(filemax), filemax, abort || next.Fail?);
      if next.Fail? || next.Stray? { PacketEnds(file, |old(trace)|, t1, e, old(schedule), schedule, Now()); }
      if Calm(schedule) { CalmIsPatient(schedule, 20 - retry); }
    }

    /** The network will come round: it is silent no more often than the request is sent again, and only
        before the first packet. */
    predicate Endures()
      reads this
    {
      if block == 0 then Patient(schedule, 20 - retry) else Calm(schedule)
    }

    /** The packet that has come. */
    method TakePacket(pkt: Packet, abort: bool) returns (next: Turned)
      requires Windowed() && FollowsUpTo([Wire(pkt)]) && !bufEof && bufRead + packetsize <= FSYS_BUFLEN
      requires Deliverable(net, iport, pkt)
      modifies this`net, this`trace, this`retry, this`block, this`prevblock, this`bcounter,
               this`packetsize, this`tp, this`bufEof, this`bufRead, this`filemax, this`received, this`closed, buf
      ensures Valid() && trace == old(trace) + [Arrival(pkt, abort)]
      ensures Grows(file, old(Now()), Now(), abort) && old(received) <= received
      ensures abort ==> buf[..] == old(buf[..])
      ensures next.Done? ==> abort
      ensures next.Again? || next.Done? <==> !BadNews(old(System(Now(), net)), Arrival(pkt, abort))
      ensures next.Stray? <==> pkt.OtherOpcode?
      ensures CalmPacket(pkt) ==> !next.Fail? && !next.Stray?
      ensures !abort && !next.Fail? ==>
        filemax == if Announces(old(System(Now(), net)), Arrival(pkt, abort)) then |file| else old(filemax)
    {
      hide Run, Step, Receive, NoReopening, Grows, CalmPacket, Heard, Said, Announces;
      ghost var s := System(Now(), net);
      AnnouncedSize(file, trace, pkt, abort);
      SizeAfter(file, trace, pkt);
      CountersAgree(file, trace);
      ReceiveGrows(file, Now(), pkt, abort);
      if CalmPacket(pkt) { CalmIsAccepted(Now(), pkt, abort); }
      ArrivalStep(file, s, pkt, abort);
      ActionIff(Now(), pkt, abort);
      var action := HandlePacket(pkt, abort);
      RunOneMore(file, Start, trace, Arrival(pkt, abort));
      HeardOneMore(trace, Arrival(pkt, abort));
      Regroup(Heard(trace), [Wire(pkt)], Said(schedule));
      Regroup(Heard(trace) + [Wire(pkt)], [], Said(schedule));
      trace := trace + [Arrival(pkt, abort)];
      match action
      case Failed => return Fail;
      case Refused => return Fail;
      case Stopped => return Stray;
      case Aborted => return Done;
      case Acked(_) => return Again;
      case Ignored => return Again;
    }

    /** `buf_fill`: waits for packets until the end of the file is stored or no packet would fit.
        `stray` says that it stopped at a packet that is neither data nor an OACK, and `down` that the
        request could not be sent again. */
    method BufFill(abort: bool) returns (ok: bool, ghost stray: bool, ghost down: bool)
      requires Valid()
      modifies this`net, this`schedule, this`trace, this`retry, this`iport, this`block, this`prevblock, this`bcounter,
               this`packetsize, this`tp, this`bufEof, this`bufRead, this`filemax, this`received, this`closed, buf
      ensures Valid() && Continues(old(trace), trace) && Grows(file, old(Now()), Now(), abort)
      ensures old(received) <= received <= file && (bufEof && !closed ==> received == file)
      ensures old(bufEof) ==> ok && !stray && Now() == old(Now())
      ensures !abort && ok && !stray ==> bufEof || bufRead + packetsize > FSYS_BUFLEN
      ensures abort ==> buf[..] == old(buf[..])
      ensures !abort && ok ==> Sized(file, |old(trace)|, trace, old(filemax), filemax)
      ensures !abort && ok && stray ==> |trace| > |old(trace)| && IsStray(trace[|trace| - 1])
      ensures if ok && !stray then GoodNews(file, |old(trace)|, trace)
        else Ended(file, |old(trace)|, trace, old(schedule), schedule, Now())
      ensures old(Endures()) ==> Endures() && !stray && (ok || down || schedule == [])
      ensures down ==> !ok && |trace| > |old(trace)| && trace[|trace| - 1] == Timeout(false)
      ensures |schedule| <= |old(schedule)|
      ensures ok && !old(bufEof) && old(bufRead) + old(packetsize) <= FSYS_BUFLEN ==> |schedule| < |old(schedule)|
    {
      hide Run, Step, Receive, Continues, NoReopening, Grows, Calm, Patient, Heard, Said, Sized, GoodNews, Ended, Suffix;
      stray, down := false, false;
      SizedReflexive(file, trace, filemax);
      ContinuesReflexive(trace);
      GrowsReflexive(file, Now(), abort);
      NoNews(file, trace);
      WholeSuffix(schedule);
      while !bufEof && bufRead + packetsize <= FSYS_BUFLEN
        invariant Valid() && Continues(old(trace), trace) && Grows(file, old(Now()), Now(), abort)
        invariant old(received) <= received && !down
        invariant old(bufEof) ==> Now() == old(Now())
        invariant abort ==> buf[..] == old(buf[..])
        invariant |old(trace)| <= |trace| && (!abort ==> Sized(file, |old(trace)|, trace, old(filemax), filemax))
        invariant GoodNews(file, |old(trace)|, trace) && Suffix(old(schedule), schedule)
        invariant old(Endures()) ==> Endures()
        invariant |schedule| <= |old(schedule)|
        invariant |schedule| < |old(schedule)| ||
          (bufEof == old(bufEof) && bufRead == old(bufRead) && packetsize == old(packetsize))
        decreases |schedule|, if retry < MAX_RETRIES then MAX_RETRIES - retry else 0
      {
        ghost var t1, c1, s1 := trace, Now(), schedule;
        var next;
        next, down := Turn(abort);
        ContinuesTransitive(old(trace), t1, trace);
        GrowsTransitive(file, old(Now()), c1, Now(), abort);
        ContinuesMeans(t1, trace);
        GoodNewsSplit(file, |old(trace)|, |t1|, trace);
        SuffixTransitive(old(schedule), s1, schedule);
        if !abort && !next.Fail? { SizedTransitive(file, |old(trace)|, |t1|, trace, old(filemax), c1.filemax, filemax); }
        if next.Fail? || next.Stray? {
          EndedLater(file, |old(trace)|, |t1|, trace, old(schedule), s1, schedule, Now());
        }
        if next.Fail? {
          DeliveredIsPrefix(file, trace);
          return false, stray, down;
        }
        if !next.Again? {
          stray := next.Stray?;
          DeliveredIsPrefix(file, trace);
          return true, stray, down;
        }
      }
      DeliveredIsPrefix(file, trace);
      return true, stray, down;
    }

    // ---------- tftp_read

    /** The buffer starts at file offset `savedFilepos`. */
    ghost predicate Aligned()
      reads this
    {
      savedFilepos == base
    }

    predicate InReach()
      reads this
    {
      Reachable(bufRead, savedFilepos, filepos)
    }

    /** The variables that `send_rrq` initializes: lines 262 to 271. */
    method ResetTransfer()
      requires buf.Length == FSYS_BUFLEN
      modifies this`retry, this`block, this`prevblock, this`packetsize, this`bcounter, this`bufEof, this`bufRead,
               this`savedFilepos, this`tp, this`received, this`base, this`closed
      ensures Windowed() && base == bufRead == savedFilepos == 0
      ensures Now() == Client(iport, 0, 0, 0, DEFAULT_SIZE, 0, false, Request, filemax, [], false)
    {
      retry, block, prevblock, packetsize, bcounter := 0, 0, 0, DEFAULT_SIZE, 0;
      bufEof, bufRead, savedFilepos := false, 0, 0;
      tp := Request;
      received, base, closed := [], 0, false;
    }

    /** `send_rrq`. */
    method SendRrq() returns (ok: bool)
      requires Follows() && buf.Length == FSYS_BUFLEN
      modifies this`retry, this`block, this`prevblock, this`packetsize, this`bcounter, this`bufEof, this`bufRead,
               this`savedFilepos, this`iport, this`tp, this`net, this`trace, this`received, this`base, this`closed
      ensures Valid() && savedFilepos == bufRead == base == 0 && Now() == Reopened(old(Now()))
      ensures trace == old(trace) + [Open(ok)]
      ensures block == retry == 0 && (old(Endures()) ==> Endures())
    {
      hide Run, Step, Continues, Heard, Said, AnnouncedSince, Announces, Patient, Calm;
      ok := *;
      ghost var left: int := 20 - retry;
      ContinuesReflexive(trace);
      Recorded(file, trace, trace, Open(ok));
      OpenStep(file, System(Now(), net), ok);
      ResetTransfer();
      iport := iport + 1;
      net := if ok then net.(requests := net.requests + {iport}) else net;
      trace := trace + [Open(ok)];
      if Calm(schedule) { CalmIsPatient(schedule, 20); }
      if Patient(schedule, left) { MorePatient(schedule, left, 20); }
    }

    /** `grub_memmove` out of the buffer. */
    method CopyOut(addr: array<byte>, at: nat, off: nat, amt: nat)
      requires addr != buf && at + amt <= addr.Length && off + amt <= buf.Length
      modifies addr
      ensures addr[..at] == old(addr[..at]) && addr[at + amt..] == old(addr[at + amt..])
      ensures addr[at..at + amt] == buf[off..off + amt]
    {
      var i := 0;
      while i < amt
        invariant 0 <= i <= amt
        invariant addr[..at] == old(addr[..at]) && addr[at + amt..] == old(addr[at + amt..])
        invariant addr[at..at + i] == buf[off..off + i]
      {
        addr[at + i] := buf[off + i];
        i := i + 1;
        assert addr[at..at + i] == addr[at..at + i - 1] + [buf[off + i - 1]];
      }
    }

    /** Within the window, the buffer has what was received. */
    lemma InWindow(off: nat, amt: nat)
      requires Windowed() && off + amt <= bufRead
      ensures base + off + amt <= |received| && buf[off..off + amt] == received[base + off..base + off + amt]
    {
      assert buf[off..off + amt] == buf[..bufRead][off..off + amt];
    }

    /** Moves the second half of the buffer to the front. */
    method Slide()
      requires buf.Length == FSYS_BUFLEN
      modifies this`bufRead, this`savedFilepos, this`base, buf
      ensures bufRead == old(bufRead) - HALF && savedFilepos == old(savedFilepos) + HALF && base == old(base) + HALF
      ensures old(Windowed()) && old(bufRead) >= HALF ==> Windowed()
    {
      ghost var whole := buf[..];
      var i := 0;
      while i < HALF
        modifies buf
        invariant 0 <= i <= HALF
        invariant forall k :: 0 <= k < i ==> buf[k] == whole[HALF + k]
        invariant forall k :: i <= k < FSYS_BUFLEN ==> buf[k] == whole[k]
      {
        buf[i] := buf[HALF + i];
        i := i + 1;
      }
      ghost var n := bufRead;
      bufRead := bufRead - HALF;
      savedFilepos := savedFilepos + HALF;
      base := base + HALF;
      if HALF <= n <= FSYS_BUFLEN {
        assert buf[..n - HALF] == whole[..n][HALF..];
      }
    }

    /** Drops the whole buffer. */
    method Skip()
      requires Valid()
      modifies this`bufRead, this`base
      ensures Valid() && bufRead == 0 && base == old(base) + old(bufRead) == |received|
    {
      base := base + bufRead;
      bufRead := 0;
    }

    /** Where in the buffer the file position is looked for. */
    function Offset(): int
      reads this
    {
      filepos - savedFilepos
    }

    /** One turn of the loop of `tftp_read`, before it asks for more.  If the file position is in the
        window, the bytes are those received; if it is beyond, the amount is that asked for, and the
        bytes are whatever the buffer holds there. */
    method TakeFromBuffer(addr: array<byte>, done: nat, left: nat) returns (amt: nat)
      requires Valid() && Aligned() && addr != buf && 0 < left < 0x1_0000_0000 && done + left <= addr.Length
      requires 0 <= Offset() && (Offset() <= bufRead || Offset() + left <= FSYS_BUFLEN)
      modifies this`filepos, this`savedFilepos, this`base, this`bufRead, buf, addr
      ensures amt <= left && filepos == old(filepos) + amt
      ensures addr[..done] == old(addr[..done]) && addr[done + amt..] == old(addr[done + amt..])
      ensures old(Offset() <= bufRead) ==>
        && Valid() && Aligned() && 0 <= Offset() <= bufRead && filepos <= |received|
        && addr[done..done + amt] == received[old(filepos)..filepos]
        && (amt == 0 ==> bufRead == 0 && base == |received|)
        && (old(Offset() + left <= bufRead) ==> amt == left)
      ensures old(Offset() > bufRead) ==> amt == left && addr[done..done + amt] == old(buf[Offset()..Offset() + left])
    {
      hide Run, Heard, Said, CutDown;
      var available := bufRead + savedFilepos - filepos;
      var cut := CutDown(available, left);
      AmountIs(available, left);
      if cut > 0 {
        amt := cut;
        if Offset() <= bufRead { InWindow(Offset(), amt); }
        MoveOut(addr, done, amt);
      } else {
        amt := 0;
        savedFilepos := savedFilepos + bufRead;
        Skip();
      }
    }

    /** Copies `amt` bytes from the file position on, and makes room in the buffer. */
    method MoveOut(addr: array<byte>, done: nat, amt: nat)
      requires Valid() && Aligned() && addr != buf && 0 < amt && done + amt <= addr.Length
      requires 0 <= Offset() && Offset() + amt <= FSYS_BUFLEN
      modifies this`filepos, this`savedFilepos, this`base, this`bufRead, buf, addr
      ensures filepos == old(filepos) + amt
      ensures addr[..done] == old(addr[..done]) && addr[done + amt..] == old(addr[done + amt..])
      ensures addr[done..done + amt] == old(buf[Offset()..Offset() + amt])
      ensures old(Offset()) + amt <= old(bufRead) ==> Valid() && Aligned() && 0 <= Offset() <= bufRead
    {
      hide Run, Heard, Said;
      CopyOut(addr, done, filepos - savedFilepos, amt);
      filepos := filepos + amt;
      if filepos - savedFilepos > HALF {
        Slide();
      }
    }

    lemma AmountIs(available: int, left: nat)
      requires available <= FSYS_BUFLEN && 0 < left < 0x1_0000_0000
      ensures available >= 0 ==> CutDown(available, left) == if available > left then left else available
      ensures available < 0 && left - available <= FSYS_BUFLEN ==> CutDown(available, left) == left
    {
    }

    /** Moves the file position back to the start: the transfer is called off and started again. */
    method Reopen() returns (ok: bool)
      requires Valid()
      modifies this, buf
      ensures Valid() && Aligned() && savedFilepos == bufRead == 0 && filepos == old(filepos)
      ensures buf[..] == old(buf[..])
      ensures !closed && prevblock == 0
      ensures old(Endures()) ==> Endures()
    {
      hide Run, Step, Receive, Continues, Grows, Calm, Patient, Heard, Said, Ended, GoodNews, Sized;
      Skip();
      var _, _, _ := BufFill(true);
      ok := SendRrq();
    }

    /** One turn of the loop of `tftp_read`: takes what the buffer has, and asks for more if that was
        not enough. */
    method ReadSome(addr: array<byte>, ghost start: nat, done: nat, left: nat) returns (amt: nat, ok: bool, ghost down: bool)
      requires Valid() && Aligned() && addr != buf && 0 < left < 0x1_0000_0000 && done + left <= addr.Length
      requires savedFilepos <= filepos <= savedFilepos + bufRead && filepos == start + done <= |received|
      requires received <= file && addr[..done] == file[start..start + done]
      modifies this, buf, addr
      ensures Valid() && Aligned() && savedFilepos <= filepos <= savedFilepos + bufRead
      ensures amt <= left && filepos == start + done + amt <= |received| && received <= file
      ensures addr[..done + amt] == file[start..start + done + amt]
      ensures addr[done + left..] == old(addr[done + left..])
      ensures old(filepos) + left <= old(savedFilepos) + old(bufRead) ==> ok && amt == left
      ensures ok && amt == 0 ==> |received| > |old(received)|
      ensures old(Endures()) && !old(closed) ==>
        Endures() && !closed && (ok || down || schedule == [] || filepos == |file|)
      ensures down ==> !ok
      ensures ok || amt < left
    {
      hide Run, Step, Receive, Continues, Grows, CutDown, Calm, Patient, Ended, GoodNews, Sized;
      ghost var tail := addr[done + left..];
      amt := TakeFromBuffer(addr, done, left);
      Joined(file, addr, start, done, amt);
      assert addr[done + left..] == addr[done + amt..][left - amt..] == old(addr[done + amt..])[left - amt..] == tail;
      ok, down := true, false;
      if amt < left {
        ghost var c, stray := Now(), false;
        ok, stray, down := BufFill(false);
        GrowsOpen(file, c, Now());
        PacketSizeBounded(file, trace);
        ok := ok && bufRead > 0;
      }
    }

    /** `tftp_read`.  With the file position in reach, a result other than 0 is `size`, and then the
        bytes are those of the file; what is in the buffer already needs no packet, and what is in the
        file is read if the network comes round.  With the position out of reach, the call claims
        to have read `size` bytes, and gives what the buffer happens to hold where they would be; this is
        stated for as long as that is within the buffer.  `down`: the request could not be
        sent (again). */
    method TftpRead(addr: array<byte>, size: nat) returns (ret: nat, ghost down: bool)
      requires Valid() && Aligned() && addr != buf && size < 0x1_0000_0000 && size <= addr.Length
      requires InReach() || Sought() + size <= FSYS_BUFLEN
      modifies this, buf, addr
      ensures ret in {0, size} && addr[size..] == old(addr[size..])
      ensures ret == size ==> filepos == old(filepos) + size
      ensures down ==> ret == 0 && (old(InReach()) || old(filepos) < old(savedFilepos))
      ensures old(InReach()) ==>
        && Valid() && Aligned() && InReach() && savedFilepos <= filepos
        && (ret == size > 0 ==>
              old(filepos) + size <= |file| && addr[..size] == file[old(filepos)..old(filepos) + size])
        && (old(savedFilepos) <= old(filepos) && old(filepos) + size <= old(savedFilepos) + old(bufRead) ==> ret == size)
        && (old(Endures()) && (old(closed) ==> old(filepos) < old(savedFilepos)) && old(filepos) + size <= |file| ==>
              ret == size || down || schedule == [])
      ensures !old(InReach()) && !down ==> ret == size && addr[..size] == old(buf[Sought()..Sought() + size])
    {
      hide Run, Step, Receive, Tftp.Windowed, Tftp.Follows, Calm, Patient;
      ret, down := 0, false;
      ghost var calm, whole := Endures() && (closed ==> filepos < savedFilepos), buf[..];
      if filepos < savedFilepos {
        var ok := Reopen();
        if !ok { return 0, true; }
      }
      Held();
      if filepos > savedFilepos + bufRead {
        if size > 0 {
          assert buf[Offset()..Offset() + size] == whole[Offset()..Offset() + size];
          ret := ReadStale(addr, size);
        }
        return;
      }
      ghost var start, inside := filepos, filepos + size <= savedFilepos + bufRead;
      ghost var tail := addr[size..];
      var left := size;
      while left > 0
        invariant Valid() && Aligned() && savedFilepos <= filepos <= savedFilepos + bufRead
        invariant ret + left == size && filepos == start + ret <= |received| && received <= file
        invariant addr[..ret] == file[start..start + ret] && addr[size..] == tail
        invariant inside ==> left == 0 || filepos + left <= savedFilepos + bufRead
        invariant calm ==> Endures() && !closed
        invariant !down
        decreases left, |file| - |received|
      {
        var amt, ok;
        amt, ok, down := ReadSome(addr, start, ret, left);
        if !ok { return 0, down; }
        left := left - amt;
        ret := ret + amt;
      }
    }

    /** Where in the buffer the bytes are looked for: opening the file again puts the window at its
        start. */
    function Sought(): int
      reads this
    {
      if filepos < savedFilepos then filepos else filepos - savedFilepos
    }

    /** The loop of `tftp_read` for a position behind the window: it is over after one turn. */
    method ReadStale(addr: array<byte>, size: nat) returns (ret: nat)
      requires Valid() && Aligned() && addr != buf && 0 < size <= addr.Length
      requires bufRead < Offset() && Offset() + size <= FSYS_BUFLEN
      modifies this`filepos, this`savedFilepos, this`base, this`bufRead, buf, addr
      ensures ret == size && filepos == old(filepos) + size && addr[size..] == old(addr[size..])
      ensures addr[..size] == old(buf[Offset()..Offset() + size])
    {
      hide Run, Heard, Said;
      ret := TakeFromBuffer(addr, 0, size);
      assert addr[0..0 + ret] == addr[..size];
    }

    lemma Held()
      requires Valid() && Aligned()
      ensures received <= file && savedFilepos + bufRead == |received| && 0 <= bufRead && buf.Length == FSYS_BUFLEN
    {
      DeliveredIsPrefix(file, trace);
    }

    // ---------- tftp_dir

    method SetFilemax(n: int)
      requires Follows()
      modifies this`filemax, this`trace
      ensures Follows() && Now() == old(Now()).(filemax := n)
      ensures trace == old(trace) + [SetFileMax(n)] && !AnnouncedSince(file, |old(trace)|, trace)
    {
      hide Run, Continues, Heard, Said, AnnouncedSince, Receive;
      ContinuesReflexive(trace);
      NothingAnnounced(file, trace);
      Recorded(file, trace, trace, SetFileMax(n));
      filemax := n;
      trace := trace + [SetFileMax(n)];
    }

    /** The file is opened and the buffer filled once.  `stray` says that this stopped at a packet of
        another kind before the first block; `down` that the request could not be sent. */
    method OpenAndFill() returns (ok: bool, ghost stray: bool, ghost down: bool)
      requires Valid()
      modifies this, buf
      ensures Valid() && filemax in {old(filemax), |file|} && savedFilepos == base == 0
      ensures |trace| > |old(trace)| && trace[..|old(trace)|] == old(trace)
      ensures trace[|old(trace)|].Open? && NoReopening(trace[|old(trace)| + 1..])
      ensures ok ==> Sized(file, |old(trace)| + 1, trace, old(filemax), filemax)
      ensures ok ==> !closed && (stray || prevblock > 0)
      ensures ok && stray ==> |trace| > |old(trace)| + 1 && IsStray(trace[|trace| - 1])
      ensures old(Endures()) || Patient(old(schedule), 20) ==> Endures() && !stray && (ok || down || schedule == [])
    {
      hide Run, Step, Receive, Calm, Patient, Heard, Said, Sized, Ended, GoodNews;
      stray := false;
      ok := SendRrq();
      down := !ok;
      if ok {
        ghost var t := trace;
        ok, stray, down := BufFill(false);
        ContinuesMeans(t, trace);
        stray := stray && prevblock == 0;
        if ok && !stray { SomethingStored(); }
      }
    }

    /** Every packet of the run that has passed since `t0` was in the schedule. */
    lemma RunIsScheduled(t0: seq<Event>, before: seq<EnvEvent>)
      requires Follows() && t0 <= trace && Heard(t0) + ([] + Said(before)) == Said(told)
      ensures forall k :: |t0| <= k < |trace| && trace[k].Arrival? ==> Wire(trace[k].pkt) in before
    {
      hide Run;
      Regroup(Heard(t0), [], Said(before));
      Regroup(Heard(trace), [], Said(schedule));
      assert trace[..|t0|] == t0;
      ArrivalsAreScheduled(Said(told), |t0|, trace, before, schedule);
    }

    lemma SomethingStored()
      requires Valid() && !closed && (bufEof || bufRead + packetsize > FSYS_BUFLEN || prevblock > 0)
      ensures prevblock > 0
    {
      StartInv(file);
      RunKeepsInv(file, Start, trace);
      PacketSizeBounded(file, trace);
      DeliveredIsPrefix(file, trace);
    }

    /** One turn of the loop that adds up: the length of what the buffer holds is added, and the buffer
        is filled anew.  If the size is announced meanwhile, that replaces the sum. */
    method AddBuffer(ghost t0: seq<Event>) returns (ok: bool, ghost down: bool)
      requires Valid() && !closed && Continues(t0, trace) && filemax == base + Extra(file, |t0|, trace)
      modifies this, buf
      ensures Valid() && !closed && Continues(t0, trace)
      ensures ok ==> filemax == base + Extra(file, |t0|, trace)
      ensures ok ==> (old(bufEof) ==> bufEof) && (bufEof || |schedule| < |old(schedule)|)
      ensures old(Endures()) ==> Endures() && (ok || down || schedule == [])
    {
      hide Run, Step, Receive, Calm, Patient, Heard, Said, Continues, Grows, Sized, Extra, Ended, GoodNews;
      ghost var t1 := trace;
      SetFilemax(filemax + bufRead);
      ContinuesMeans(t0, t1);
      ContinuesOnce(t0, t1, trace[|t1|]);
      ghost var t2, size, c2 := trace, filemax, Now();
      PacketSizeBounded(file, trace);
      Skip();
      ghost var stray;
      ok, stray, down := BufFill(false);
      ContinuesTransitive(t0, t2, trace);
      ContinuesMeans(t2, trace);
      ContinuesMeans(t0, t2);
      GrowsOpen(file, c2, Now());
      assert trace[..|t1|] == t2[..|t1|] == t1;
      if ok { ExtraAfter(file, |t0|, |t1|, |t2|, trace, base, size, filemax, c2.received); }
    }

    /** The file is read to its end, and the lengths are added up: to its length, and to that once more
        if an announcement is heard on the way. */
    method AddUp() returns (ok: bool, ghost down: bool)
      requires Valid() && !closed && base == 0
      modifies this, buf
      ensures Valid() && buf.Length == FSYS_BUFLEN
      ensures Continues(old(trace), trace)
      ensures ok ==> filemax == |file| + Extra(file, |old(trace)|, trace)
      ensures old(Endures()) ==> Endures() && (ok || down || schedule == [])
    {
      hide Run, Step, Receive, Calm, Patient, Heard, Said, Continues, Grows, Extra;
      ghost var t0 := trace;
      SetFilemax(0);
      ContinuesReflexive(t0);
      ContinuesOnce(t0, t0, trace[|t0|]);
      NoExtra(file, |t0|, trace);
      while true
        invariant Valid() && !closed && Continues(t0, trace)
        invariant filemax == base + Extra(file, |t0|, trace)
        invariant old(Endures()) ==> Endures()
        decreases !bufEof, |schedule|
      {
        ok, down := AddBuffer(t0);
        if !ok { return false, down; }
        if bufEof { break; }
      }
      ghost var t1 := trace;
      DeliveredIsPrefix(file, trace);
      SetFilemax(filemax + bufRead);
      ContinuesMeans(t0, t1);
      ContinuesOnce(t0, t1, trace[|t1|]);
      SameExtra(file, |t0|, |t1|, trace);
    }

    /** A seek forward, of a file of which nothing has arrived: one byte is read, and it is wrong. */
    method SeekForward() returns (ret: nat, b: byte, ghost expected: byte)
      ensures ret == 1 && b != expected
    {
      var c := new Tftp([7, 7, 7, 7, 7, 7, 7, 7], []);
      c.filepos := 5;
      expected := c.file[5];
      var addr := new byte[1];
      ghost var down;
      ret, down := c.TftpRead(addr, 1);
      b := addr[0];
      assert addr[..1][0] == b;
    }

    /** `tftp_dir`, once the request has been built.  The transfer is started at most twice, and then
        the buffer is at the start of the file.  The size is that of the file, whether the server
        announces it or not; unless it is counted twice, and this is exactly when: in the first session
        a packet of another kind came before the announcement, and in the second none was heard.
        `down`: a request could not be sent. */
    method TftpDir() returns (ok: bool, ghost stray: bool, ghost down: bool)
      requires Valid()
      modifies this, buf
      ensures Valid() && (ok ==> Aligned() && savedFilepos == 0 && !closed)
      ensures |trace| >= |old(trace)| + 2 && trace[..|old(trace)| + 1] == old(trace) + [SetFileMax(-1)] && trace[|old(trace)| + 1].Open?
      ensures ok ==> filemax == if CountedTwice(file, |old(trace)| + 2, trace) then 2 * |file| else |file|
      ensures forall k :: |old(trace)| <= k < |trace| && trace[k].Arrival? ==> Wire(trace[k].pkt) in old(schedule)
      ensures ok && (Wire(OtherOpcode) !in old(schedule) || NoneTells(old(schedule))) ==> filemax == |file|
      ensures old(Endures()) || Patient(old(schedule), 20) ==> !stray && (ok || down || schedule == [])
    {
      hide Calm, Patient, Heard, Said, Run, Continues, Extra, Sized, CountedTwice, AnnouncedSince;
      ghost var t0, before := trace, schedule;
      SetFilemax(-1);
      ok, stray, down := OpenAndFill();
      ghost var t1, m, c1 := trace, |t0| + 2, Now();
      OneOpening(file, m, t1);
      if ok {
        AnnouncedMeansSized(file, m, t1, filemax);
        if filemax == -1 {
          ok, down := AddUp();
          ContinuesMeans(t1, trace);
          ghost var t2, size := trace, filemax;
          if ok {
            ghost var again;
            ok, again, down := OpenAndFill();
            assert trace[..|t2|] == t2 && trace[..|t1|] == t2[..|t1|] == t1;
            if ok { DirSize(file, m, |t1|, |t2|, trace, filemax, c1.prevblock, stray); }
          }
        }
      }
      RunIsScheduled(t0, before);
      if CountedTwice(file, m, trace) { CountedTwiceNeeds(file, m, trace); }
    }
  }
}

/**
 The driver of netboot/ns8390.c and the chip it shares the ring with.  The chip writes frames and
 moves CURR; the driver copies frames out and moves BOUND.  Together they are the line of frames of
 `Ns8390Spec`, and a queue.
 */
module Ns8390 {
  import opened FrameQueue
  import opened Ns8390Spec
  import opened Ns8390Ring

  class Nic {
    const ring: Ring             // eth_rx_start and eth_memsize
    const pio: bool              // FLAG_PIO
    const wide: bool             // FLAG_16BIT
    const packet: array<byte>    // nic->packet
    var packetlen: nat
    var drain: bool              // eth_drain_receiver
    // the chip
    var mem: seq<byte>
    var bound: nat
    var curr: nat
    var received: bool           // PRX in the receive status register
    var overflow: bool           // OVW in the interrupt status register
    var loopback: bool
    // what the ring means
    ghost var fifo: Fifo

    /** The page of the oldest frame. */
    function Head(): nat
      reads this
    {
      if bound + 1 >= ring.stop then ring.start else bound + 1
    }

    ghost function Pending(): seq<Frame>
      reads this
    {
      if fifo.gone <= |fifo.accepted| then fifo.Pending() else []
    }

    ghost function Now(): Line
      reads this
    {
      Line(Pending(), received, overflow)
    }

    ghost predicate Valid()
      reads this
    {
      && ring.Valid() && |mem| == ring.stop * PAGE
      && packet.Length == ETH_FRAME_LEN
      && ring.Has(bound) && ring.Has(curr)
      && Used(Pending()) < ring.Pages()
      && Chain(ring, mem, Head(), Pending(), curr)
      && fifo.Valid()
      && (drain ==> loopback)
    }

    /** `ns8390_reset`: CURR at the start of the ring, BOUND at its last page. */
    constructor (ring: Ring, pio: bool, wide: bool)
      requires ring.Valid()
      ensures Valid() && this.ring == ring && fifo == Empty && fresh(packet)
      ensures !drain && !loopback && Now() == Line([], false, false)
    {
      this.ring, this.pio, this.wide := ring, pio, wide;
      packet := new byte[ETH_FRAME_LEN];
      packetlen, drain := 0, false;
      mem := seq(ring.stop * PAGE, _ => 0);
      bound, curr := ring.stop - 1, ring.start;
      received, overflow, loopback := false, false, false;
      fifo := Empty;
    }

    // ---------- The chip

    /** The chip receives something.  It writes header, frame and checksum at CURR if the pages up to
        BOUND suffice; otherwise it reports an overrun and takes nothing until that is cleared.  A
        damaged frame is not stored, but the receive status register tells of it. */
    method Receive(e: ChipEvent)
      requires Valid() && e.Possible()
      modifies this`mem, this`curr, this`received, this`overflow, this`fifo
      ensures Valid() && Grown(old(fifo), fifo) && (loopback ==> fifo == old(fifo))
      ensures Now() == if loopback then old(Now()) else Take(ring.Pages(), old(Now()), e)
    {
      hide Chain, Used, PagesFor;
      GrownAtOnce(fifo);
      if loopback || overflow { return; }
      match e
      case Damage =>
        received := false;
      case Arrival(status, frame, checksum) =>
        var pages := PagesFor(|frame|);
        var free := if bound >= curr then bound - curr else bound + ring.Pages() - curr;
        FreePages();
        if pages > free {
          overflow := true;
        } else {
          Accept(status, frame, checksum, pages);
        }
    }

    /** The chip stores a frame that fits. */
    method Accept(status: byte, frame: Frame, checksum: seq<byte>, pages: nat)
      requires Valid() && status % 2 == 1 && |checksum| == 4
      requires pages == PagesFor(|frame|) && pages + Used(Pending()) < ring.Pages()
      modifies this`mem, this`curr, this`received, this`fifo
      ensures Valid() && fifo == old(fifo).Arrive(frame) && received
      ensures Pending() == old(Pending()) + [frame] && Grown(old(fifo), fifo)
    {
      hide Chain, At, Written, Used;
      ChainEnds(ring, mem, Head(), Pending(), curr);
      var n := |frame| + 4;
      var next := ring.Ahead(curr, pages);
      var bytes := [status, next, n % 0x100, n / 0x100] + frame + checksum;
      QueuedSurvives(bytes);
      WrittenIsAt(ring, mem, curr, bytes, frame);
      mem := Written(ring, mem, curr, bytes);
      ChainAppend(ring, mem, Head(), Pending(), curr, frame);
      UsedAppend(Pending(), frame);
      StepsKeepValid(fifo, frame);
      GrownByOne(fifo, frame);
      fifo := fifo.Arrive(frame);
      curr := next;
      received := true;
    }

    /** What reaches the chip: in loopback, nothing from outside. */
    function Heard(events: seq<ChipEvent>): seq<ChipEvent>
      reads this
    {
      if loopback then [] else events
    }

    function HeardIn(g: Gaps): Gaps
      reads this
    {
      if loopback then Quiet else g
    }

    /** What the chip does while the driver is between two accesses. */
    method Meanwhile(events: seq<ChipEvent>)
      requires Valid() && AllPossible(events)
      modifies this`mem, this`curr, this`received, this`overflow, this`fifo
      ensures Valid() && Grown(old(fifo), fifo) && (loopback ==> fifo == old(fifo))
      ensures Now() == TakeAll(ring.Pages(), old(Now()), Heard(events))
    {
      hide Nic.Valid, Nic.Now, Take, Grown;
      GrownAtOnce(fifo);
      var i := 0;
      assert events[0..] == events;
      while i < |events|
        invariant 0 <= i <= |events| && Valid() && Grown(old(fifo), fifo) && (loopback ==> fifo == old(fifo))
        invariant TakeAll(ring.Pages(), Now(), Heard(events[i..])) == TakeAll(ring.Pages(), old(Now()), Heard(events))
      {
        ghost var q := fifo;
        assert events[i..][0] == events[i] && events[i..][1..] == events[i + 1..];
        Receive(events[i]);
        GrownTwice(old(fifo), q, fifo);
        i := i + 1;
      }
    }

    // ---------- The driver

    /** `eth_pio_read`: with a 16-bit card, an odd count is rounded up and words are moved. */
    method EthPioRead(src: nat, dst: array<byte>, at: nat, cnt: nat)
      requires var moved := if wide then cnt + cnt % 2 else cnt;
        src + moved <= |mem| && at + moved <= dst.Length
      modifies dst
      ensures dst[..at] == old(dst[..at]) && dst[at..at + cnt] == mem[src..src + cnt]
    {
      var left: nat := if wide then (cnt + 1) / 2 else cnt;
      var from, to := src, at;
      while left > 0
        invariant from - src == to - at == (if wide then 2 * ((cnt + 1) / 2 - left) else cnt - left)
        invariant left <= if wide then (cnt + 1) / 2 else cnt
        invariant forall k :: 0 <= k < at ==> dst[k] == old(dst[k])
        invariant forall k :: at <= k < to ==> dst[k] == mem[src + (k - at)]
      {
        if wide {
          dst[to], dst[to + 1] := mem[from], mem[from + 1];
          from, to := from + 2, to + 2;
        } else {
          dst[to] := mem[from];
          from, to := from + 1, to + 1;
        }
        left := left - 1;
      }
    }

    /** Reads by port or from shared memory, as the card requires. */
    method EthRead(src: nat, dst: array<byte>, at: nat, cnt: nat)
      requires var moved := if pio && wide then cnt + cnt % 2 else cnt;
        src + moved <= |mem| && at + moved <= dst.Length
      modifies dst
      ensures dst[..at] == old(dst[..at]) && dst[at..at + cnt] == mem[src..src + cnt]
    {
      if pio {
        EthPioRead(src, dst, at, cnt);
      } else {
        var i := 0;
        while i < cnt
          invariant 0 <= i <= cnt
          invariant dst[..at] == old(dst[..at]) && dst[at..at + i] == mem[src..src + i]
        {
          dst[at + i] := mem[src + i];
          i := i + 1;
          assert dst[at..at + i] == dst[at..at + i - 1] + [mem[src + i - 1]];
        }
      }
    }

    /** Copies the bytes [from, upto) of the oldest frame: up to where it wraps around, or from there
        on, or all of it if it does not. */
    method CopyPart(from: nat, upto: nat)
      requires Valid() && Pending() != [] && from <= upto <= |Pending()[0]| <= ETH_FRAME_LEN
      requires var room := ring.stop * PAGE - (Head() * PAGE + 4);
        if from == 0 then upto <= room && (upto < |Pending()[0]| ==> upto == room) else from == room && upto == |Pending()[0]|
      requires packet[..from] == Pending()[0][..from]
      modifies packet
      ensures packet[..upto] == Pending()[0][..upto]
    {
      hide Chain, Nic.Pending, Nic.Valid;
      var src := if from == 0 then Head() * PAGE + 4 else ring.start * PAGE;
      PartIs(from, upto, src);
      ghost var first := packet[..from];
      EthRead(src, packet, from, upto - from);
      assert packet[..upto] == packet[..from] + packet[from..from + (upto - from)];
      assert Pending()[0][..upto] == Pending()[0][..from] + Pending()[0][from..upto];
    }

    /** Where the bytes of such a part are. */
    lemma PartIs(from: nat, upto: nat, src: nat)
      requires Valid() && Pending() != [] && from <= upto <= |Pending()[0]| <= ETH_FRAME_LEN
      requires var room := ring.stop * PAGE - (Head() * PAGE + 4);
        if from == 0 then upto <= room && (upto < |Pending()[0]| ==> upto == room) else from == room && upto == |Pending()[0]|
      requires src == if from == 0 then Head() * PAGE + 4 else ring.start * PAGE
      ensures var cnt := upto - from; var moved := if pio && wide then cnt + cnt % 2 else cnt;
        src + moved <= |mem| && from + moved <= packet.Length && mem[src..src + cnt] == Pending()[0][from..upto]
    {
      hide Chain, Nic.Pending, PagesFor;
      Oldest();
      PartFits(ring, Head(), from, upto, |Pending()[0]|);
      forall i | from <= i < upto ensures mem[src + (i - from)] == Pending()[0][i] {
        PartAddr(ring, Head(), from, i, src);
        assert mem[ring.Addr(Head(), 4 + i)] == Pending()[0][i];
      }
    }

    /** Copies the oldest frame, in two parts when it wraps around, while the chip goes on receiving. */
    method CopyFrame(len: nat, toWrap: seq<ChipEvent>)
      requires Valid() && AllPossible(toWrap) && Pending() != [] && len == |Pending()[0]| <= ETH_FRAME_LEN
      modifies this`mem, this`curr, this`received, this`overflow, this`fifo, packet
      ensures Valid() && Grown(old(fifo), fifo) && (loopback ==> fifo == old(fifo))
      ensures packet[..len] == old(Pending())[0]
      ensures Now() == TakeAll(ring.Pages(), old(Now()), Heard(toWrap))
    {
      hide Chain, Nic.Pending, TakeAll;
      var p, frag := 0, ring.stop * PAGE - (Head() * PAGE + 4);
      TakeAllAdds(ring.Pages(), Now(), Heard(toWrap));
      if len > frag {
        CopyPart(0, frag);
        p := frag;
      }
      Meanwhile(toWrap);
      CopyPart(p, len);
    }

    /** What the driver finds at the read pointer. */
    lemma Oldest()
      requires Valid() && Pending() != []
      ensures var at, f := Head() * PAGE, Pending()[0];
        && mem[at] % 2 == 1
        && mem[at + 1] == ring.Ahead(Head(), PagesFor(|f|))
        && (mem[at + 2] as int + 0x100 * mem[at + 3] as int - 4) % 0x1_0000 == |f|
        && 4 + |f| + 4 < ring.Pages() * PAGE
        && forall i :: 0 <= i < |f| ==> mem[ring.Addr(Head(), 4 + i)] == f[i]
    {
      hide Used, PagesFor;
    }

    /** Moves BOUND to the page before the next frame. */
    method Advance(link: nat)
      requires Valid() && Pending() != [] && link == ring.Ahead(Head(), PagesFor(|Pending()[0]|))
      modifies this`bound, this`fifo
      ensures Valid() && Pending() == old(Pending())[1..]
      ensures fifo == if drain then old(fifo).Drop() else old(fifo).HandOver()
    {
      hide At, PagesFor;
      StepsKeepValid(fifo, []);
      bound := (if link == ring.start then ring.stop else link) - 1;
      fifo := if drain then fifo.Drop() else fifo.HandOver();
    }

    /** `ns8390_poll`. */
    method Poll(g: Gaps) returns (ret: bool)
      requires Valid() && g.Possible() && (overflow ==> drain == loopback)
      modifies this`packetlen, this`mem, this`curr, this`received, this`bound, this`fifo, this`drain, this`loopback, this`overflow, packet
      decreases if drain then 0 else 4
      ensures Valid() && drain == old(drain) && loopback == old(loopback)
      ensures old(!drain && overflow) ==>
        && !ret && Now() == old(Now()).Cleared() && received == old(received)
        && fifo == old(fifo).DropFirst(if received then GoodPrefix(old(Pending())) else 0)
      ensures !old(!drain && overflow) ==> Polled(old(Now()), HeardIn(g), ret, old(fifo))
      ensures !old(!drain && overflow) && (g == Quiet || loopback) ==>
        && (ret <==> received && old(Pending()) != [] && 60 <= |old(Pending())[0]| <= 1514)
        && (ret ==> packetlen == |old(Pending())[0]| && packet[..packetlen] == old(Pending())[0] && Pending() == old(Pending())[1..])
        && (!ret ==> Pending() == old(Pending()))
    {
      hide Chain, Used, PagesFor, Nic.Polled;
      if !drain && overflow {
        RxOverrun();
        return false;
      }
      ghost var l, q := Now(), fifo;
      ret := PollRing(g);
      if g == Quiet || loopback { PolledQuietly(l, ret, q); }
    }

    /** A call in which nothing arrives, in numbers. */
    lemma PolledQuietly(l: Line, ret: bool, q: Fifo)
      requires Polled(l, Quiet, ret, q)
      ensures ret <==> received && l.pending != [] && 60 <= |l.pending[0]| <= 1514
      ensures ret ==> packetlen == |l.pending[0]| <= packet.Length && packet[..packetlen] == l.pending[0]
      ensures Pending() == if ret then l.pending[1..] else l.pending
    {
    }

    /** What a call leaves behind that began with the queue `q`: the line `last`, less the frame it
        handed over or dropped. */
    ghost predicate Leaves(last: Line, ret: bool, q: Fifo)
      reads this
    {
      && Now() == (if ret && last.pending != [] then last.(pending := last.pending[1..]) else last)
      && (ret ==> last.pending != [])
      && q.accepted <= fifo.accepted && (loopback ==> q.accepted == fifo.accepted)
      && q.gone <= |fifo.accepted| && fifo.accepted[q.gone..] == last.pending
      && fifo.gone == q.gone + (if ret then 1 else 0)
      && fifo.handed == if ret && !drain then q.handed + [q.gone] else q.handed
    }

    /** What a call does that finds no overrun, or is made to drain the ring. */
    ghost predicate Polled(l: Line, g: Gaps, ret: bool, q: Fifo)
      reads this, packet
    {
      var n := ring.Pages();
      var seen := AtCurr(n, l, g).pending;
      && (ret <==> AtStatus(n, l, g).received && seen != [] && GoodLength(|seen[0]|))
      && (ret ==> packetlen <= packet.Length && packet[..packetlen] == seen[0])
      && Leaves(AtBound(n, l, g), ret, q)
    }

    /** With the chip in loopback, nothing else can happen in a call. */
    lemma PolledInLoopback(l: Line, ret: bool, q: Fifo)
      requires loopback && q.Valid() && q.Pending() == l.pending && Polled(l, Quiet, ret, q)
      ensures ret <==> l.received && l.pending != [] && GoodLength(|l.pending[0]|)
      ensures drain ==> fifo == if ret then q.Drop() else q
      ensures received == l.received && overflow == l.overflow
    {
    }

    /** The queue may have grown before. */
    lemma LeavesSince(last: Line, ret: bool, q: Fifo, q': Fifo)
      requires Leaves(last, ret, q') && Grown(q, q') && (loopback ==> q == q')
      ensures Leaves(last, ret, q)
    {
    }

    /** The driver has nothing to do, and the chip goes on. */
    method Idle(toWrap: seq<ChipEvent>, toBound: seq<ChipEvent>)
      requires Valid() && AllPossible(toWrap) && AllPossible(toBound)
      modifies this`mem, this`curr, this`received, this`fifo, this`overflow
      ensures Valid() && Leaves(TakeAll(ring.Pages(), TakeAll(ring.Pages(), old(Now()), Heard(toWrap)), Heard(toBound)), false, old(fifo))
    {
      hide Chain, Used, PagesFor, TakeAll, Take;
      Meanwhile(toWrap);
      Meanwhile(toBound);
    }

    /** Status, next page and length without the checksum. */
    method ReadHeader() returns (status: byte, link: nat, len: nat)
      requires Valid() && Pending() != []
      ensures status % 2 == 1 && len == |Pending()[0]| && link == ring.Ahead(Head(), PagesFor(|Pending()[0]|))
      ensures PagesFor(|Pending()[0]|) < ring.Pages()
    {
      hide Chain, Nic.Pending;
      var next := Head();
      Oldest();
      status, link := mem[next * PAGE], mem[next * PAGE + 1];
      len := (mem[next * PAGE + 2] as int + 0x100 * mem[next * PAGE + 3] as int - 4) % 0x1_0000;
    }

    /** The oldest frame is handed over, if its length is good. */
    method TakeOldest(toWrap: seq<ChipEvent>, toBound: seq<ChipEvent>) returns (ret: bool)
      requires Valid() && Pending() != [] && AllPossible(toWrap) && AllPossible(toBound)
      modifies this`packetlen, this`mem, this`curr, this`received, this`bound, this`fifo, this`overflow, packet
      ensures Valid() && (ret <==> GoodLength(|old(Pending())[0]|))
      ensures ret ==> packetlen <= packet.Length && packet[..packetlen] == old(Pending())[0]
      ensures Leaves(TakeAll(ring.Pages(), TakeAll(ring.Pages(), old(Now()), Heard(toWrap)), Heard(toBound)), ret, old(fifo))
    {
      hide Chain, At, Used, TakeAll, Take, PagesFor;
      var status, link, len := ReadHeader();
      if status % 2 == 0 || len < ETH_ZLEN || len > ETH_FRAME_LEN {
        Idle(toWrap, toBound);
        return false;
      }
      packetlen := len;
      TakeAllAdds(ring.Pages(), Now(), Heard(toWrap));
      CopyFrame(len, toWrap);
      TakeAllAdds(ring.Pages(), Now(), Heard(toBound));
      Meanwhile(toBound);
      Advance(link);
      return true;
    }

    /** The part of `ns8390_poll` after the test for an overrun. */
    method PollRing(g: Gaps) returns (ret: bool)
      requires Valid() && g.Possible()
      modifies this`packetlen, this`mem, this`curr, this`received, this`bound, this`fifo, this`overflow, packet
      ensures Valid() && Polled(old(Now()), HeardIn(g), ret, old(fifo))
    {
      hide Nic.Valid, TakeAll, Used, PagesFor, Nic.Pending, Grown, Nic.Leaves;
      ghost var q := fifo;
      Meanwhile(g.toStatus);
      ghost var q1 := fifo;
      var rstat := received;
      Meanwhile(g.toCurr);
      GrownTwice(q, q1, fifo);
      ghost var q2 := fifo;
      EmptyIff();
      var next := bound + 1;
      if next >= ring.stop { next := ring.start; }
      var write := if curr >= ring.stop then ring.start else curr;
      TakeAllAdds(ring.Pages(), Now(), Heard(g.toCopy));
      Meanwhile(g.toCopy);
      GrownTwice(q, q2, fifo);
      ghost var q3 := fifo;
      if !rstat || write == next {
        Idle(g.toWrap, g.toBound);
        ret := false;
      } else {
        ret := TakeOldest(g.toWrap, g.toBound);
      }
      LeavesSince(AtBound(ring.Pages(), old(Now()), HeardIn(g)), ret, q, q3);
    }

    /** The driver's test for an empty ring is right. */
    lemma EmptyIff()
      requires Valid()
      ensures curr == Head() <==> Pending() == []
      ensures curr < ring.stop
    {
      ChainEnds(ring, mem, Head(), Pending(), curr);
    }

    /** `eth_rx_overrun`: with the chip in loopback, polls until nothing comes. */
    method RxOverrun()
      requires Valid() && !drain && overflow && !loopback
      modifies this`packetlen, this`mem, this`curr, this`received, this`bound, this`fifo, this`drain, this`loopback, this`overflow, packet
      decreases 3
      ensures Valid() && !drain && !loopback && received == old(received)
      ensures Now() == old(Now()).Cleared()
      ensures fifo == old(fifo).DropFirst(if received then GoodPrefix(old(Pending())) else 0)
      ensures Pending() == [] <==>
        old(Pending()) == [] || (received && forall i :: 0 <= i < |old(Pending())| ==> 60 <= |old(Pending())[i]| <= 1514)
    {
      hide Chain, Used, PagesFor, GoodPrefix, GoodLength;
      ClearedIsEmptyIff(Now());
      loopback := true;
      drain := true;
      DrainRing();
      drain := false;
      overflow := false;
      loopback := false;
    }

    /** `while (ns8390_poll (nic))`. */
    method DrainRing()
      requires Valid() && drain && overflow && loopback
      modifies this`packetlen, this`mem, this`curr, this`received, this`bound, this`fifo, this`drain, this`loopback, this`overflow, packet
      decreases 2
      ensures Valid() && drain && overflow && loopback && received == old(received)
      ensures var n := if received then GoodPrefix(old(Pending())) else 0;
        fifo == old(fifo).DropFirst(n) && Pending() == old(Pending())[n..]
    {
      hide Nic.Valid, GoodLength, GoodPrefix, Nic.Pending;
      ghost var n, all := 0, Pending();
      while true
        invariant Valid() && drain && loopback && overflow && received == old(received)
        invariant fifo == old(fifo).DropFirst(n) && n <= |all| && Pending() == all[n..]
        invariant n + GoodPrefix(all[n..]) == GoodPrefix(all) && (!received ==> n == 0)
        decreases |all| - n
      {
        GoodPrefixStep(all, n);
        var more := DrainOne();
        if !more { break; }
        n := n + 1;
      }
    }

    /** One of these polls. */
    method DrainOne() returns (more: bool)
      requires Valid() && drain && overflow && loopback
      modifies this`packetlen, this`mem, this`curr, this`received, this`bound, this`fifo, this`drain, this`loopback, this`overflow, packet
      decreases 1
      ensures Valid() && drain && overflow && loopback && received == old(received)
      ensures more <==> received && old(Pending()) != [] && GoodLength(|old(Pending())[0]|)
      ensures fifo == if more then old(fifo).DropFirst(1) else old(fifo)
      ensures Pending() == if more then old(Pending())[1..] else old(Pending())
    {
      hide Chain, Used, PagesFor, TakeAll, GoodLength, Nic.Polled;
      ghost var q, l := fifo, Now();
      more := Poll(Quiet);
      PolledInLoopback(l, more, q);
    }

    // ---------- Runs

    /** Chip and driver interleaved in any way, also within a call.  The driver refines the line of
        frames: it hands over what that says, and clears overruns when that does.  What was in the ring
        and what the chip accepted is what the caller got and what is still in the ring, in this order;
        unless an overrun was cleared, which drops frames and hands none of them over. */
    method Drive(events: seq<Event>) returns (got: seq<Frame>, ghost cleared: bool)
      requires Valid() && !drain && !loopback && forall i :: 0 <= i < |events| ==> events[i].Possible()
      modifies this`mem, this`curr, this`received, this`packetlen, this`bound, this`fifo,
               this`drain, this`loopback, this`overflow, packet
      ensures Valid() && !drain && !loopback
      ensures Now() == Run(ring.Pages(), old(Now()), events)
      ensures got == Deliveries(ring.Pages(), old(Now()), events)
      ensures cleared <==> Clears(ring.Pages(), old(Now()), events)
      ensures old(fifo.accepted) <= fifo.accepted && Handed(fifo) == old(Handed(fifo)) + got
      ensures !cleared ==>
        old(fifo.Pending()) + fifo.accepted[|old(fifo.accepted)|..] == got + fifo.Pending()
    {
      hide Chain, Nic.Valid, Step, Run, Deliveries, Clears, Given, Nic.Polled, FollowsFrom, TakeAll, Take, Line.Cleared;
      got, cleared := [], false;
      ghost var q0, l0 := fifo, Now();
      ValidFifo();
      NothingRun(ring.Pages(), l0);
      FollowsAtOnce(fifo);
      for i := 0 to |events|
        invariant Valid() && fifo.Valid() && !drain && !loopback && FollowsFrom(q0, fifo, got, cleared)
        invariant Now() == Run(ring.Pages(), l0, events[..i])
        invariant got == Deliveries(ring.Pages(), l0, events[..i])
        invariant cleared <==> Clears(ring.Pages(), l0, events[..i])
      {
        ghost var q, l := fifo, Now();
        RunOneMore(ring.Pages(), l0, events[..i], events[i]);
        assert events[..i + 1] == events[..i] + [events[i]];
        match events[i] {
          case Received(e) =>
            Receive(e);
            GrownFollows(q0, q, fifo, got, cleared);
            StepReceived(ring.Pages(), l, e);
          case PollCall(g) =>
            var ret := Poll(g);
            PollFollows(q0, q, got, cleared, l, g, ret);
            cleared := cleared || l.overflow;
            assert got + [] == got;
            if ret { got := got + [packet[..packetlen]]; }
        }
        ValidFifo();
      }
      assert events[..|events|] == events;
      FollowsMeans(q0, fifo, got, cleared);
    }

    /** A poll keeps the account of the run, and is the step of the line. */
    lemma PollFollows(q0: Fifo, q: Fifo, got: seq<Frame>, cleared: bool, l: Line, g: Gaps, ret: bool)
      requires Valid() && !drain && !loopback && FollowsFrom(q0, q, got, cleared) && q.Valid() && l.pending == q.Pending()
      requires l.overflow ==>
        && !ret && Now() == l.Cleared()
        && fifo == q.DropFirst(if l.received then GoodPrefix(l.pending) else 0)
      requires !l.overflow ==> Polled(l, g, ret, q)
      ensures ret ==> packetlen <= packet.Length
      ensures FollowsFrom(q0, fifo, got + (if ret then [packet[..packetlen]] else []), cleared || l.overflow)
      ensures Now() == Step(ring.Pages(), l, PollCall(g))
      ensures Given(ring.Pages(), l, PollCall(g)) == if ret then [packet[..packetlen]] else []
    {
      hide Chain, FollowsFrom, AtStatus, AtCurr, AtBound, GoodLength;
      assert q.Valid() && got + [] == got;
      if l.overflow {
        LeaveFollows(q0, q, got, cleared, if l.received then GoodPrefix(l.pending) else 0);
      } else {
        var q' := q.(accepted := fifo.accepted);
        PollAdds(ring.Pages(), l, g);
        GrownFollows(q0, q, q', got, cleared);
        LeaveFollows(q0, q', got, cleared, 0);
        assert q'.Pending() == AtBound(ring.Pages(), l, g).pending;
        if ret {
          assert fifo == q'.HandOver();
          assert packet[..packetlen] == AtCurr(ring.Pages(), l, g).pending[0] == q'.Pending()[0];
        } else {
          assert fifo == q' && got + [] == got;
        }
      }
    }

    lemma ValidFifo()
      requires Valid()
      ensures fifo.Valid() && ring.Valid() && Pending() == fifo.Pending()
    {
    }

    lemma FreePages()
      requires Valid()
      ensures (if bound >= curr then bound - curr else bound + ring.Pages() - curr) == ring.Pages() - 1 - Used(Pending())
    {
      ChainEnds(ring, mem, Head(), Pending(), curr);
    }

    lemma QueuedSurvives(bytes: seq<byte>)
      requires Valid() && Used(Pending()) * PAGE + |bytes| <= ring.Pages() * PAGE
      ensures |bytes| <= ring.Pages() * PAGE && Chain(ring, Written(ring, mem, curr, bytes), Head(), Pending(), curr)
    {
      ChainEnds(ring, mem, Head(), Pending(), curr);
      WrittenAgrees(ring, mem, Head(), Used(Pending()), bytes);
      ChainSurvives(ring, mem, Written(ring, mem, curr, bytes), Head(), Pending(), curr);
    }
  }

  lemma GoodPrefixStep(all: seq<Frame>, n: nat)
    requires n <= |all|
    ensures if n < |all| && GoodLength(|all[n]|) then GoodPrefix(all[n..]) == 1 + GoodPrefix(all[n + 1..])
      else GoodPrefix(all[n..]) == 0
  {
    if n < |all| { assert all[n..][1..] == all[n + 1..]; }
  }

  /** The part before the end of the ring has an even length, so only the last word read can reach beyond
      what was asked for, and it does not reach beyond the memory or the packet. */
  lemma PartFits(r: Ring, head: nat, from: nat, upto: nat, len: nat)
    requires r.Valid() && r.Has(head) && from <= upto <= len <= 1514 && 4 + len + 4 < r.Pages() * PAGE
    requires var room := r.stop * PAGE - (head * PAGE + 4);
      if from == 0 then upto <= room && (upto < len ==> upto == room) else from == room && upto == len
    ensures var src := if from == 0 then head * PAGE + 4 else r.start * PAGE; var cnt := upto - from;
      src + cnt + cnt % 2 <= r.stop * PAGE && from + cnt + cnt % 2 <= 1514
  {
  }

  lemma PartAddr(r: Ring, head: nat, from: nat, i: nat, src: nat)
    requires r.Valid() && r.Has(head) && from <= i && 4 + i < r.Pages() * PAGE
    requires var room := r.stop * PAGE - (head * PAGE + 4);
      if from == 0 then i < room && src == head * PAGE + 4 else from == room && src == r.start * PAGE
    ensures r.Addr(head, 4 + i) == src + (i - from)
  {
  }

  lemma NothingRun(capacity: nat, l: Line)
    ensures Run(capacity, l, []) == l && Deliveries(capacity, l, []) == [] && !Clears(capacity, l, [])
  {
  }

  lemma StepReceived(capacity: nat, l: Line, e: ChipEvent)
    ensures Step(capacity, l, Received(e)) == Take(capacity, l, e) && Given(capacity, l, Received(e)) == []
  {
  }

  /** Header and frame, written at `page`, are in the ring there. */
  lemma WrittenIsAt(r: Ring, mem: seq<byte>, page: nat, bytes: seq<byte>, frame: Frame)
    requires r.Valid() && |mem| == r.stop * PAGE && r.Has(page)
    requires PagesFor(|frame|) < r.Pages()
    requires 4 + |frame| <= |bytes| <= r.Pages() * PAGE
    requires bytes[0] % 2 == 1 && bytes[1] == r.Ahead(page, PagesFor(|frame|))
    requires bytes[2] as int + 0x100 * bytes[3] as int == |frame| + 4
    requires bytes[4..4 + |frame|] == frame
    ensures At(r, Written(r, mem, page, bytes), page, frame)
  {
    var m := Written(r, mem, page, bytes);
    WrittenAt(r, mem, page, bytes, 0);
    WrittenAt(r, mem, page, bytes, 1);
    WrittenAt(r, mem, page, bytes, 2);
    WrittenAt(r, mem, page, bytes, 3);
    forall i | 0 <= i < |frame| ensures m[r.Addr(page, 4 + i)] == frame[i] {
      WrittenAt(r, mem, page, bytes, 4 + i);
      assert bytes[4..4 + |frame|][i] == bytes[4 + i];
    }
  }
}

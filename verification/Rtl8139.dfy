/**
 The driver of netboot/rtl8139.c and the chip that fills its ring: together the line of frames of
 `Rtl8139Spec`, and a queue.
 */
module Rtl8139 {
  import opened FrameQueue
  import opened Rtl8139Spec
  import opened Rtl8139Ring

  class Nic {
    const packet: array<byte>    // nic->packet
    var packetlen: nat
    var curRx: nat               // cur_rx
    // the chip
    var ring: seq<byte>          // rx_ring, which the chip writes
    var writeOff: nat
    var rxBufPtr: nat
    // what the ring means
    ghost var rd: nat
    ghost var wr: nat
    ghost var slots: seq<Slot>
    ghost var fifo: Fifo

    ghost predicate Valid()
      reads this
    {
      && packet.Length == ETH_FRAME_LEN && |ring| == RX_BUF_LEN
      && rd <= wr < rd + RX_BUF_LEN && rd % 4 == 0
      && Chain(ring, rd, slots, wr)
      && curRx == rd % 0x1_0000_0000 && rxBufPtr == Pointer(curRx) && writeOff == wr % RX_BUF_LEN
      && fifo.Valid() && fifo.Pending() == Frames(slots)
    }

    constructor ()
      ensures Valid() && fifo == Empty && slots == [] && fresh(packet)
    {
      packet := new byte[ETH_FRAME_LEN];
      packetlen, curRx, writeOff, rxBufPtr := 0, 0, 0, 0xFFF0;
      ring := seq(RX_BUF_LEN, _ => 0);
      rd, wr, slots, fifo := 0, 0, [], Empty;
    }

    /** `rtl_reset`, as far as the ring is concerned: what it held is lost. */
    method Reset()
      requires Valid()
      modifies this`curRx, this`writeOff, this`rxBufPtr, this`rd, this`wr, this`slots, this`fifo
      ensures Valid() && fifo == old(fifo).DropAll() && slots == []
    {
      StepsKeepValid(fifo, []);
      curRx, writeOff, rxBufPtr := 0, 0, 0xFFF0;
      rd, wr, slots, fifo := 0, 0, [], fifo.DropAll();
    }

    /** A frame arrives; the chip takes it if it fits behind what RxBufPtr says is unread. */
    method FrameArrives(slot: Slot, checksum: seq<byte>)
      requires Valid() && slot.Sound() && |checksum| == 4
      modifies this`ring, this`writeOff, this`wr, this`slots, this`fifo
      ensures Valid()
      ensures slots == Take(old(slots), slot)
      ensures fifo == if Spans(old(slots)) + slot.Span() < RX_BUF_LEN then old(fifo).Arrive(slot.frame) else old(fifo)
    {
      UnreadIsExact(rd, wr);
      ChainSpan(ring, rd, slots, wr);
      if Unread(writeOff, rxBufPtr) + slot.Span() < RX_BUF_LEN {
        Accept(slot, checksum);
      }
    }

    method Accept(slot: Slot, checksum: seq<byte>)
      requires Valid() && slot.Sound() && |checksum| == 4 && wr - rd + slot.Span() < RX_BUF_LEN
      modifies this`ring, this`writeOff, this`wr, this`slots, this`fifo
      ensures Valid() && fifo == old(fifo).Arrive(slot.frame) && slots == old(slots) + [slot]
    {
      hide Chain, SlotAt, Written, Frames, Fifo.Valid, Fifo.Pending, Fifo.Arrive, Slot.Span, Pointer;
      OffsetOf(wr, slot.Span());
      ChainSpan(ring, rd, slots, wr);
      SameWrite(slot.Bytes(checksum));
      ChainSurvives(ring, rd, slots, wr, slot.Bytes(checksum));
      WrittenIsSlot(ring, wr, slot, checksum);
      ring := Written(ring, writeOff, slot.Bytes(checksum));
      ChainAppend(ring, rd, slots, wr, slot);
      FramesAppend(slots, slot);
      StepsKeepValid(fifo, slot.frame);
      slots, fifo := slots + [slot], fifo.Arrive(slot.frame);
      wr := wr + slot.Span();
      writeOff := if writeOff + slot.Span() >= RX_BUF_LEN then writeOff + slot.Span() - RX_BUF_LEN else writeOff + slot.Span();
    }

    /** The chip knows its write offset only modulo the size of the ring. */
    lemma SameWrite(bytes: seq<byte>)
      requires |ring| == RX_BUF_LEN && writeOff == wr % RX_BUF_LEN && |bytes| <= RX_BUF_LEN
      ensures Written(ring, writeOff, bytes) == Written(ring, wr, bytes)
    {
    }

    /** `memcpy` out of the ring. */
    method Copy(src: nat, at: nat, cnt: nat)
      requires src + cnt <= |ring| && at + cnt <= packet.Length
      modifies packet
      ensures packet[..at] == old(packet[..at]) && packet[at..at + cnt] == ring[src..src + cnt]
    {
      var i := 0;
      while i < cnt
        invariant 0 <= i <= cnt
        invariant packet[..at] == old(packet[..at]) && packet[at..at + i] == ring[src..src + i]
      {
        packet[at + i] := ring[src + i];
        i := i + 1;
        assert packet[at..at + i] == packet[at..at + i - 1] + [ring[src + i - 1]];
      }
    }

    /** What the chip does while the driver is between two accesses. */
    method Meanwhile(arrivals: seq<Arrival>)
      requires Valid() && AllPossible(arrivals)
      modifies this`ring, this`writeOff, this`wr, this`slots, this`fifo
      ensures Valid() && Grown(old(fifo), fifo) && slots == TakeAll(old(slots), arrivals)
    {
      hide Nic.Valid, Slot.Good, Slot.Span, Grown, Take;
      GrownAtOnce(fifo);
      var i := 0;
      assert arrivals[0..] == arrivals;
      while i < |arrivals|
        invariant 0 <= i <= |arrivals| && Valid() && Grown(old(fifo), fifo)
        invariant TakeAll(slots, arrivals[i..]) == TakeAll(old(slots), arrivals)
      {
        ghost var q := fifo;
        assert arrivals[i..][0] == arrivals[i] && arrivals[i..][1..] == arrivals[i + 1..];
        GrownAtOnce(q);
        GrownByOne(q, arrivals[i].slot.frame);
        FrameArrives(arrivals[i].slot, arrivals[i].checksum);
        GrownTwice(old(fifo), q, fifo);
        i := i + 1;
      }
    }

    /** Copies the bytes [from, upto) of the oldest frame: up to where it wraps around, or from there
        on, or all of it if it does not. */
    method CopyPart(from: nat, upto: nat, wrapped: bool)
      requires Valid() && slots != [] && from <= upto <= |slots[0].frame| <= ETH_FRAME_LEN
      requires var room := RX_BUF_LEN - rd % RX_BUF_LEN - 4;
        if wrapped then from == room && upto == |slots[0].frame| else from == 0 && upto <= room
      requires packet[..from] == slots[0].frame[..from]
      modifies packet
      ensures packet[..upto] == slots[0].frame[..upto]
    {
      hide Chain, Nic.Valid;
      var src := if wrapped then 0 else curRx % RX_BUF_LEN + 4;
      PartIs(from, upto, wrapped, src);
      Copy(src, from, upto - from);
      assert packet[..upto] == packet[..from] + packet[from..from + (upto - from)];
      assert slots[0].frame[..upto] == slots[0].frame[..from] + slots[0].frame[from..upto];
    }

    /** Where the bytes of such a part are. */
    lemma PartIs(from: nat, upto: nat, wrapped: bool, src: nat)
      requires Valid() && slots != [] && from <= upto <= |slots[0].frame| <= ETH_FRAME_LEN
      requires var room := RX_BUF_LEN - rd % RX_BUF_LEN - 4;
        if wrapped then from == room && upto == |slots[0].frame| else from == 0 && upto <= room
      requires src == if wrapped then 0 else curRx % RX_BUF_LEN + 4
      ensures src + (upto - from) <= |ring| && upto <= packet.Length
      ensures ring[src..src + (upto - from)] == slots[0].frame[from..upto]
    {
      hide Chain, Slot.Span, Frames, Pointer;
      Oldest();
      OffsetSurvivesWrap(rd);
      forall i | from <= i < upto ensures ring[src + (i - from)] == slots[0].frame[i] {
        OffsetOf(rd, 4 + i);
        assert At(ring, rd + 4 + i) == slots[0].frame[i];
      }
    }

    /** Copies the oldest frame, in two parts when it wraps around, while frames go on arriving. */
    method CopyFrame(ringOffs: nat, size: nat, toWrap: seq<Arrival>)
      requires Valid() && slots != [] && slots[0].Good() && AllPossible(toWrap)
      requires ringOffs == curRx % RX_BUF_LEN && size == |slots[0].frame| + 4
      modifies this`ring, this`writeOff, this`wr, this`slots, this`fifo, packet
      ensures Valid() && Grown(old(fifo), fifo) && slots == TakeAll(old(slots), toWrap)
      ensures size - 4 <= packet.Length && packet[..size - 4] == old(slots)[0].frame
    {
      hide Nic.Valid, TakeAll;
      OffsetIs();
      TakeAllAdds(slots, toWrap);
      if ringOffs + 4 + size - 4 > RX_BUF_LEN {
        var semiCount := RX_BUF_LEN - ringOffs - 4;
        CopyPart(0, semiCount, false);
        Meanwhile(toWrap);
        CopyPart(semiCount, size - 4, true);
      } else {
        Meanwhile(toWrap);
        CopyPart(0, size - 4, false);
      }
    }

    /** The part that wraps around is never of negative length. */
    lemma OffsetIs()
      requires Valid()
      ensures curRx % RX_BUF_LEN == rd % RX_BUF_LEN <= RX_BUF_LEN - 4 && |ring| == RX_BUF_LEN && packet.Length == ETH_FRAME_LEN
    {
      hide Chain;
      OffsetSurvivesWrap(rd);
      Consecutive(rd, 0);
    }

    /** What a call leaves that began with the queue `q`: it handed over a frame; or it found a bad one
        and dropped everything; or there was nothing. */
    ghost predicate Polled(q: Fifo, ret: bool, some: bool)
      reads this
    {
      && q.accepted <= fifo.accepted
      && fifo.gone == (if ret then q.gone + 1 else if some then |fifo.accepted| else q.gone)
      && fifo.handed == if ret then q.handed + [q.gone] else q.handed
    }

    /** `rtl_poll`. */
    method Poll(toCopy: seq<Arrival>, toWrap: seq<Arrival>, toMove: seq<Arrival>) returns (ret: bool)
      requires Valid() && AllPossible(toCopy) && AllPossible(toWrap) && AllPossible(toMove)
      modifies this`packetlen, this`ring, this`curRx, this`writeOff, this`rxBufPtr, this`rd, this`wr, this`slots, this`fifo, packet
      ensures Valid()
      ensures ret <==>
        && old(slots) != [] && 60 <= |old(slots)[0].frame| + 4 <= 1518
        && !Bit(old(slots)[0].status, 0x02) && !Bit(old(slots)[0].status, 0x04) && !Bit(old(slots)[0].status, 0x08)
        && !Bit(old(slots)[0].status, 0x10) && !Bit(old(slots)[0].status, 0x20)
      ensures ret ==> packetlen <= packet.Length && packet[..packetlen] == old(slots)[0].frame
      ensures slots == Step(old(slots), PollCall(toCopy, toWrap, toMove))
      ensures Polled(old(fifo), ret, old(slots) != [])
    {
      hide Chain, Frames, Slot.Span, Pointer, Unread, TakeAll, Bit;
      EmptyIff();
      if slots != [] { GoodIffFine(slots[0]); }
      TakeAllAdds(slots, toCopy);
      TakeAllAdds(TakeAll(slots, toCopy), toWrap);
      TakeAllAdds(TakeAll(TakeAll(slots, toCopy), toWrap), toMove);
      if Unread(writeOff, rxBufPtr) == 0 {
        Meanwhile(toCopy);
        Meanwhile(toWrap);
        Meanwhile(toMove);
        return false;
      }
      Meanwhile(toCopy);
      var ringOffs, rxStatus, rxSize := ReadHeader();
      if (rxStatus / 2) % 0x20 != 0 || rxSize < ETH_ZLEN || rxSize > ETH_FRAME_LEN + 4 {
        Meanwhile(toWrap);
        Meanwhile(toMove);
        Reset();
        return false;
      }
      packetlen := rxSize - 4;
      CopyFrame(ringOffs, rxSize, toWrap);
      Meanwhile(toMove);
      Advance(rxSize);
      return true;
    }

    /** Offset, status and size at `cur_rx`. */
    method ReadHeader() returns (ringOffs: nat, rxStatus: nat, rxSize: nat)
      requires Valid() && slots != []
      ensures ringOffs == curRx % RX_BUF_LEN && rxStatus == slots[0].status && rxSize == |slots[0].frame| + 4
      ensures slots[0].Sound()
    {
      hide Nic.Valid;
      OffsetIs();
      Oldest();
      ringOffs := curRx % RX_BUF_LEN;
      rxStatus := ring[ringOffs] as int + 0x100 * ring[ringOffs + 1] as int;
      rxSize := ring[ringOffs + 2] as int + 0x100 * ring[ringOffs + 3] as int;
    }

    /** The driver's test for an empty ring is right. */
    lemma EmptyIff()
      requires Valid()
      ensures |ring| == RX_BUF_LEN && (Unread(writeOff, rxBufPtr) == 0 <==> slots == [])
    {
      hide Pointer, Unread;
      UnreadIsExact(rd, wr);
      ChainSpan(ring, rd, slots, wr);
    }

    /** What the driver finds at `cur_rx`: the status word does not wrap around. */
    lemma Oldest()
      requires Valid() && slots != []
      ensures var off := rd % RX_BUF_LEN;
        && off + 4 <= RX_BUF_LEN
        && ring[off] as int + 0x100 * ring[off + 1] as int == slots[0].status
        && ring[off + 2] as int + 0x100 * ring[off + 3] as int == |slots[0].frame| + 4
      ensures slots[0].Sound() && fifo.Pending()[0] == slots[0].frame
      ensures forall i :: 0 <= i < |slots[0].frame| ==> At(ring, rd + 4 + i) == slots[0].frame[i]
    {
      hide Chain;
      ChainTail(ring, rd, slots, wr);
      Consecutive(rd, 1);
      Consecutive(rd, 2);
      Consecutive(rd, 3);
    }

    /** Lines 440 and 441. */
    method Advance(rxSize: nat)
      requires Valid() && slots != [] && slots[0].Sound() && rxSize == |slots[0].frame| + 4
      modifies this`curRx, this`rxBufPtr, this`rd, this`slots, this`fifo
      ensures Valid() && fifo == old(fifo).HandOver() && slots == old(slots)[1..]
      ensures curRx == NextCurRx(old(curRx), rxSize) && rxBufPtr == Pointer(curRx)
    {
      hide SlotAt, Pointer, NextCurRx, Chain, Frames, Spans, Slot.Span, Fifo.Valid, Fifo.Pending, Fifo.HandOver;
      FramesTail(slots);
      ChainTail(ring, rd, slots, wr);
      CurRxFollows(rd, slots[0]);
      ChainSpan(ring, rd, slots, wr);
      StepsKeepValid(fifo, []);
      ghost var next := rd + slots[0].Span();
      assert next % 4 == 0 && next <= wr < next + RX_BUF_LEN;
      curRx := NextCurRx(curRx, rxSize);
      rxBufPtr := Pointer(curRx);
      rd := next;
      slots := slots[1..];
      fifo := fifo.HandOver();
    }

    /** Chip and driver interleaved in any way, also within a call.  The driver refines the line of frames:
        it hands over what that says, and resets the chip when that does.  First in, first out, and
        nothing is lost unless the chip was reset on the way. */
    method Drive(events: seq<Event>) returns (got: seq<Frame>, ghost reset: bool)
      requires Valid() && forall i :: 0 <= i < |events| ==> events[i].Possible()
      modifies this, packet
      ensures Valid() && old(fifo.accepted) <= fifo.accepted
      ensures !reset ==> old(fifo.Pending()) + fifo.accepted[|old(fifo.accepted)|..] == got + fifo.Pending()
      ensures Handed(fifo) == old(Handed(fifo)) + got
      ensures slots == Run(old(slots), events) && got == Deliveries(old(slots), events)
      ensures reset <==> Resets(old(slots), events)
    {
      hide Chain, Nic.Valid, FollowsFrom, Nic.Polled, TakeAll, Run, Deliveries, Resets, Bit;
      got, reset := [], false;
      ghost var q0, l0 := fifo, slots;
      NothingRun(l0);
      ValidFifo();
      FollowsAtOnce(fifo);
      for i := 0 to |events|
        invariant Valid() && fifo.Valid() && FollowsFrom(q0, fifo, got, reset)
        invariant slots == Run(l0, events[..i]) && got == Deliveries(l0, events[..i])
        invariant reset <==> Resets(l0, events[..i])
      {
        ghost var q, some := fifo, slots != [];
        RunOneMore(l0, events[..i], events[i]);
        assert events[..i + 1] == events[..i] + [events[i]];
        assert got + [] == got;
        match events[i] {
          case Arrivals(a) =>
            Meanwhile(a);
            GrownFollows(q0, q, fifo, got, reset);
          case PollCall(toCopy, toWrap, toMove) =>
            PendingIff();
            var ret := Poll(toCopy, toWrap, toMove);
            ValidFifo();
            PollFollows(q0, q, got, reset, ret, some, if ret then packet[..packetlen] else []);
            if ret { got := got + [packet[..packetlen]]; } else { reset := reset || some; }
          case TransmitFails =>
            Reset();
            LeaveFollows(q0, q, got, reset, |q.Pending()|);
            reset := true;
        }
        ValidFifo();
      }
      assert events[..|events|] == events;
      FollowsMeans(q0, fifo, got, reset);
    }

    lemma PollFollows(q0: Fifo, q: Fifo, got: seq<Frame>, reset: bool, ret: bool, some: bool, f: Frame)
      requires FollowsFrom(q0, q, got, reset) && q.Valid() && fifo.Valid() && Polled(q, ret, some)
      requires ret ==> q.Pending() != [] && f == q.Pending()[0]
      ensures FollowsFrom(q0, fifo, if ret then got + [f] else got, reset || (!ret && some))
    {
      hide FollowsFrom;
      var q' := q.(accepted := fifo.accepted);
      GrownFollows(q0, q, q', got, reset);
      LeaveFollows(q0, q', got, reset, |q'.Pending()|);
      assert q.Pending() <= q'.Pending();
    }

    lemma ValidFifo()
      requires Valid()
      ensures fifo.Valid()
    {
    }

    lemma PendingIff()
      requires Valid()
      ensures slots == [] <==> fifo.Pending() == []
      ensures slots != [] ==> fifo.Pending()[0] == slots[0].frame
    {
    }
  }
}

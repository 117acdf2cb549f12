/**
 The receive ring of netboot/rtl8139.c and its pointers.  The chip writes a status
 word and the frame at its write pointer, wrapping around after RX_BUF_LEN bytes; the driver counts
 in a 32-bit `cur_rx` and tells the chip how far it has come in the 16-bit register RxBufPtr.
 */
module Rtl8139Ring {
  import opened FrameQueue
  import opened Rtl8139Spec

  /** Byte `pos` of the endless stream that the ring shows a part of. */
  function At(mem: seq<byte>, pos: nat): byte
    requires |mem| == RX_BUF_LEN
  {
    mem[pos % RX_BUF_LEN]
  }

  ghost predicate SlotAt(mem: seq<byte>, pos: nat, slot: Slot)
    requires |mem| == RX_BUF_LEN
  {
    && slot.Sound() && pos % 4 == 0
    && At(mem, pos) as int + 0x100 * At(mem, pos + 1) as int == slot.status
    && At(mem, pos + 2) as int + 0x100 * At(mem, pos + 3) as int == |slot.frame| + 4
    && forall i :: 0 <= i < |slot.frame| ==> At(mem, pos + 4 + i) == slot.frame[i]
  }

  ghost predicate Chain(mem: seq<byte>, pos: nat, slots: seq<Slot>, end: nat)
    requires |mem| == RX_BUF_LEN
    decreases |slots|
  {
    if slots == [] then pos == end
    else SlotAt(mem, pos, slots[0]) && Chain(mem, pos + slots[0].Span(), slots[1..], end)
  }

  lemma FramesTail(slots: seq<Slot>)
    requires slots != []
    ensures Frames(slots) != [] && Frames(slots)[1..] == Frames(slots[1..])
  {
  }

  lemma {:induction false} FramesAppend(slots: seq<Slot>, slot: Slot)
    ensures Frames(slots + [slot]) == Frames(slots) + [slot.frame]
  {
    if slots == [] {
      assert slots + [slot] == [slot] && [slot][1..] == [];
    } else {
      assert (slots + [slot])[1..] == slots[1..] + [slot];
      FramesAppend(slots[1..], slot);
    }
  }

  /** The offset of a byte less than once around the ring further on. */
  lemma OffsetOf(pos: nat, k: nat)
    requires k <= RX_BUF_LEN
    ensures (pos + k) % RX_BUF_LEN
         == if pos % RX_BUF_LEN + k >= RX_BUF_LEN then pos % RX_BUF_LEN + k - RX_BUF_LEN else pos % RX_BUF_LEN + k
  {
  }

  /** The bytes of an aligned word lie side by side. */
  lemma Consecutive(pos: nat, k: nat)
    requires pos % 4 == 0 && k < 4
    ensures (pos + k) % RX_BUF_LEN == pos % RX_BUF_LEN + k && pos % RX_BUF_LEN + 4 <= RX_BUF_LEN
  {
    assert (pos % RX_BUF_LEN) % 4 == 0;
  }

  lemma ChainTail(mem: seq<byte>, pos: nat, slots: seq<Slot>, end: nat)
    requires |mem| == RX_BUF_LEN && slots != [] && Chain(mem, pos, slots, end)
    ensures SlotAt(mem, pos, slots[0]) && Chain(mem, pos + slots[0].Span(), slots[1..], end)
  {
  }

  lemma {:induction false} ChainSpan(mem: seq<byte>, pos: nat, slots: seq<Slot>, end: nat)
    requires |mem| == RX_BUF_LEN && Chain(mem, pos, slots, end)
    ensures pos <= end && (pos == end <==> slots == []) && (pos % 4 == 0 ==> end % 4 == 0)
    ensures slots != [] ==> pos + slots[0].Span() <= end
    ensures end - pos == Spans(slots)
    decreases |slots|
  {
    hide SlotAt;
    if slots != [] { ChainSpan(mem, pos + slots[0].Span(), slots[1..], end); }
  }

  /** What is in the ring at the head of a frame: the status and the length with the checksum, in 16 bits
      each, low byte first. */
  lemma HeaderBytes(mem: seq<byte>, pos: nat, slot: Slot)
    requires |mem| == 8192 && SlotAt(mem, pos, slot)
    ensures var at, n := pos % 8192, |slot.frame| + 4;
      && at + 4 <= 8192
      && mem[at] == slot.status % 256 && mem[at + 1] == slot.status / 256
      && mem[at + 2] == n % 256 && mem[at + 3] == n / 256
  {
    Consecutive(pos, 0);
    Consecutive(pos, 1);
    Consecutive(pos, 2);
    Consecutive(pos, 3);
  }

  /** The ring after a write at `pos`. */
  function Written(mem: seq<byte>, pos: nat, bytes: seq<byte>): (m: seq<byte>)
    requires |mem| == RX_BUF_LEN && |bytes| <= RX_BUF_LEN
    ensures |m| == RX_BUF_LEN
  {
    seq(RX_BUF_LEN, a requires 0 <= a < RX_BUF_LEN =>
      var off := (a - pos % RX_BUF_LEN) % RX_BUF_LEN;
      if off < |bytes| then bytes[off] else mem[a])
  }

  lemma WrittenInside(mem: seq<byte>, pos: nat, bytes: seq<byte>, i: nat)
    requires |mem| == RX_BUF_LEN && i < |bytes| <= RX_BUF_LEN
    ensures At(Written(mem, pos, bytes), pos + i) == bytes[i]
  {
    assert ((pos + i) % RX_BUF_LEN - pos % RX_BUF_LEN) % RX_BUF_LEN == i;
  }

  lemma WrittenOutside(mem: seq<byte>, pos: nat, bytes: seq<byte>, q: nat)
    requires |mem| == RX_BUF_LEN && |bytes| <= RX_BUF_LEN && q < pos && pos + |bytes| <= q + RX_BUF_LEN
    ensures At(Written(mem, pos, bytes), q) == At(mem, q)
  {
    assert (q % RX_BUF_LEN - pos % RX_BUF_LEN) % RX_BUF_LEN == (q - pos) % RX_BUF_LEN == q - pos + RX_BUF_LEN;
  }

  /** A write behind the queue that does not run into it leaves it as it was. */
  lemma {:induction false} ChainSurvives(mem: seq<byte>, pos: nat, slots: seq<Slot>, end: nat, bytes: seq<byte>)
    requires |mem| == RX_BUF_LEN && Chain(mem, pos, slots, end) && end + |bytes| <= pos + RX_BUF_LEN && pos <= end
    ensures Chain(Written(mem, end, bytes), pos, slots, end)
    decreases |slots|
  {
    if slots != [] {
      ChainSpan(mem, pos, slots, end);
      forall q: nat | pos <= q < pos + slots[0].Span() ensures At(Written(mem, end, bytes), q) == At(mem, q) {
        WrittenOutside(mem, end, bytes, q);
      }
      ChainSurvives(mem, pos + slots[0].Span(), slots[1..], end, bytes);
    }
  }

  lemma WrittenIsSlot(mem: seq<byte>, pos: nat, slot: Slot, checksum: seq<byte>)
    requires |mem| == RX_BUF_LEN && slot.Sound() && |checksum| == 4 && pos % 4 == 0
    ensures SlotAt(Written(mem, pos, slot.Bytes(checksum)), pos, slot)
  {
    hide Written;
    var bytes := slot.Bytes(checksum);
    var m := Written(mem, pos, bytes);
    WrittenInside(mem, pos, bytes, 0);
    WrittenInside(mem, pos, bytes, 1);
    WrittenInside(mem, pos, bytes, 2);
    WrittenInside(mem, pos, bytes, 3);
    forall i | 0 <= i < |slot.frame| ensures At(m, pos + 4 + i) == slot.frame[i] {
      WrittenInside(mem, pos, bytes, 4 + i);
    }
  }

  lemma {:induction false} ChainAppend(mem: seq<byte>, pos: nat, slots: seq<Slot>, end: nat, slot: Slot)
    requires |mem| == RX_BUF_LEN && Chain(mem, pos, slots, end) && SlotAt(mem, end, slot)
    ensures Chain(mem, pos, slots + [slot], end + slot.Span())
    decreases |slots|
  {
    if slots == [] {
      assert [slot][1..] == [];
    } else {
      assert (slots + [slot])[1..] == slots[1..] + [slot];
      ChainAppend(mem, pos + slots[0].Span(), slots[1..], end, slot);
    }
  }

  // ---------- The pointers

  /** The wrapped 32-bit counter still gives the offset in the ring, because its size divides 2^32. */
  lemma OffsetSurvivesWrap(rd: nat)
    ensures (rd % 0x1_0000_0000) % RX_BUF_LEN == rd % RX_BUF_LEN
    ensures rd % 4 == 0 ==> (rd % 0x1_0000_0000) % 4 == 0
  {
    var q, r := rd / 0x1_0000_0000, rd % 0x1_0000_0000;
    assert rd == RX_BUF_LEN * (524288 * q + r / RX_BUF_LEN) + r % RX_BUF_LEN;
  }

  /** The update of `cur_rx` at line 440. */
  function NextCurRx(curRx: nat, size: nat): nat {
    (curRx + size + 4 + 3) % 0x1_0000_0000 / 4 * 4
  }

  /** In numbers: behind the status word, the frame and its checksum, at the next multiple of four. */
  lemma NextCurRxIs(curRx: nat, n: nat)
    requires curRx % 4 == 0 && curRx + n + 11 < 0x1_0000_0000
    ensures var next := NextCurRx(curRx, n + 4);
      next % 4 == 0 && curRx + 4 + n + 4 <= next < curRx + 4 + n + 4 + 4
  {
  }

  /** It follows the true position, which never wraps. */
  lemma CurRxFollows(rd: nat, slot: Slot)
    requires rd % 4 == 0 && slot.Sound()
    ensures NextCurRx(rd % 0x1_0000_0000, |slot.frame| + 4) == (rd + slot.Span()) % 0x1_0000_0000
  {
    OffsetSurvivesWrap(rd);
    RoundsUp(rd % 0x1_0000_0000, |slot.frame|);
    AddThenWrap(rd, slot.Span());
  }

  lemma AddThenWrap(x: nat, d: nat)
    ensures (x % 0x1_0000_0000 + d) % 0x1_0000_0000 == (x + d) % 0x1_0000_0000
  {
    var q := x / 0x1_0000_0000;
    assert x + d == q * 0x1_0000_0000 + (x % 0x1_0000_0000 + d);
  }

  lemma RoundsUp(c: nat, n: nat)
    requires c % 4 == 0 && c < 0x1_0000_0000 && n < 0x700
    ensures (c + n + 11) % 0x1_0000_0000 / 4 * 4 == (c + (n + 11) / 4 * 4) % 0x1_0000_0000
  {
    var k, m := c / 4, (n + 11) / 4;
    assert c == 4 * k && (c + n + 11) / 4 == k + m;
    if c + n + 11 >= 0x1_0000_0000 {
      assert (c + n + 11) % 0x1_0000_0000 == c + n + 11 - 0x1_0000_0000;
      assert (c + n + 11 - 0x1_0000_0000) / 4 == k + m - 0x4000_0000;
    }
  }

  /** What is written to RxBufPtr: 16 less than the position, in 16 bits. */
  function Pointer(curRx: nat): nat {
    (curRx - 16) % 0x1_0000
  }

  lemma PointersMean(curRx: nat, size: nat)
    ensures NextCurRx(curRx, size) == (curRx + size + 4 + 3) % 0x1_0000_0000 / 4 * 4
    ensures Pointer(curRx) == (curRx - 16) % 0x1_0000
  {
  }

  /** How many bytes the chip takes to be unread, from its write offset and RxBufPtr. */
  function Unread(writeOff: nat, rxBufPtr: nat): nat {
    (writeOff - (rxBufPtr + 16)) % RX_BUF_LEN
  }

  /** It is right, although both pointers have wrapped any number of times. */
  lemma UnreadIsExact(rd: nat, wr: nat)
    requires rd <= wr < rd + RX_BUF_LEN
    ensures Unread(wr % RX_BUF_LEN, Pointer(rd % 0x1_0000_0000)) == wr - rd
  {
    var c := rd % 0x1_0000_0000;
    OffsetSurvivesWrap(rd);
    assert (Pointer(c) + 16) % RX_BUF_LEN == c % RX_BUF_LEN;
    var a, b := wr % RX_BUF_LEN, Pointer(c) + 16;
    assert (a - b) % RX_BUF_LEN == (a - b % RX_BUF_LEN) % RX_BUF_LEN;
    OffsetOf(rd, wr - rd);
  }
}

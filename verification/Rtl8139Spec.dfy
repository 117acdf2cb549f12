/**
 What the RTL8139 and its driver do with frames, seen without memory or pointers: a line of frames with
 their receive status, which must not fill the ring.
 */
module Rtl8139Spec {
  import opened FrameQueue

  const RX_BUF_LEN: nat := 8192

  /** A frame in the ring, with the chip's receive status. */
  datatype Slot = Slot(status: nat, frame: Frame) {
    predicate Sound() {
      status < 0x1_0000 && |frame| + 4 <= 0x700
    }

    /** What the driver accepts: no error bit, and a length between the two bounds. */
    predicate Good() {
      (status / 2) % 0x20 == 0 && ETH_ZLEN <= |frame| + 4 <= ETH_FRAME_LEN + 4
    }

    /** Status word, frame and checksum, rounded up to a multiple of four. */
    function Span(): (n: nat)
      ensures n % 4 == 0 && n >= |frame| + 8
    {
      (|frame| + 8 + 3) / 4 * 4
    }

    /** What the chip writes. */
    function Bytes(checksum: seq<byte>): (r: seq<byte>)
      requires Sound()
      ensures |r| == 4 + |frame| + |checksum|
    {
      var n := |frame| + 4;
      [status % 0x100, status / 0x100, n % 0x100, n / 0x100] + frame + checksum
    }
  }

  function Spans(slots: seq<Slot>): nat {
    if slots == [] then 0 else slots[0].Span() + Spans(slots[1..])
  }

  // ---------- Which frames are good

  /** A bit of a status word, given by its weight. */
  predicate Bit(status: nat, weight: nat)
    requires weight > 0
  {
    status / weight % 2 == 1
  }

  /** None of the bits for a bad alignment (0x02), a bad checksum (0x04), a frame too long (0x08), a runt
      (0x10) and a bad symbol (0x20) is set; whatever the others are, among them that for a good
      frame (0x01); and the length is that of an Ethernet frame with its checksum. */
  predicate Fine(slot: Slot) {
    && !Bit(slot.status, 0x02) && !Bit(slot.status, 0x04) && !Bit(slot.status, 0x08)
    && !Bit(slot.status, 0x10) && !Bit(slot.status, 0x20)
    && 60 <= |slot.frame| + 4 <= 1518
  }

  lemma GoodIffFine(slot: Slot)
    ensures slot.Good() <==> Fine(slot)
  {
    LowBits(slot.status);
  }

  /** A number is 0 below 0x20 exactly if none of its five lowest bits is set. */
  lemma LowBits(status: nat)
    ensures (status / 2) % 0x20 == 0 <==>
      !Bit(status, 0x02) && !Bit(status, 0x04) && !Bit(status, 0x08) && !Bit(status, 0x10) && !Bit(status, 0x20)
  {
    var y, b := status / 2 / 0x20, status / 2 % 0x20;
    assert status / 2 == 0x20 * y + b;
    BitOf(status, y, b, 1, 0x10);
    BitOf(status, y, b, 2, 8);
    BitOf(status, y, b, 4, 4);
    BitOf(status, y, b, 8, 2);
    BitOf(status, y, b, 0x10, 1);
    FiveBits(b);
  }

  lemma BitOf(status: nat, y: nat, b: nat, w: nat, v: nat)
    requires status / 2 == 0x20 * y + b && b < 0x20 && w in {1, 2, 4, 8, 0x10} && w * v == 0x10
    ensures Bit(status, 2 * w) <==> b / w % 2 == 1
  {
    var x := status / 2;
    HalfFirst(status, w);
    assert x / w == 2 * (v * y) + b / w by { Quotients(x, y, b, w, v); }
  }

  lemma HalfFirst(status: nat, w: nat)
    requires w in {1, 2, 4, 8, 0x10}
    ensures status / (2 * w) == status / 2 / w
  {
  }

  lemma Quotients(x: nat, y: nat, b: nat, w: nat, v: nat)
    requires x == 0x20 * y + b && b < 0x20 && w in {1, 2, 4, 8, 0x10} && w * v == 0x10
    ensures x / w == 2 * (v * y) + b / w
  {
    if w == 1 { assert v == 0x10; } else if w == 2 { assert v == 8; } else if w == 4 { assert v == 4; } else if w == 8 { assert v == 2; } else { assert v == 1; }
  }

  lemma FiveBits(b: nat)
    requires b < 0x20
    ensures b == 0 <==> b / 1 % 2 == 0 && b / 2 % 2 == 0 && b / 4 % 2 == 0 && b / 8 % 2 == 0 && b / 0x10 % 2 == 0
  {
  }

  // ---------- Events

  /** What the chip receives. */
  datatype Arrival = Arrival(slot: Slot, checksum: seq<byte>)

  predicate AllPossible(arrivals: seq<Arrival>) {
    forall i :: 0 <= i < |arrivals| ==> arrivals[i].slot.Sound() && |arrivals[i].checksum| == 4
  }

  predicate AllWelcome(arrivals: seq<Arrival>) {
    forall i :: 0 <= i < |arrivals| ==> Fine(arrivals[i].slot)
  }

  /** Frames arrive between two calls; or the driver is called, and frames arrive before it copies,
      before it copies the part that has wrapped around, and before it moves RxBufPtr; or a
      transmission fails. */
  datatype Event = Arrivals(a: seq<Arrival>)
                 | PollCall(toCopy: seq<Arrival>, toWrap: seq<Arrival>, toMove: seq<Arrival>)
                 | TransmitFails
  {
    predicate Possible() {
      match this
      case Arrivals(a) => AllPossible(a)
      case PollCall(toCopy, toWrap, toMove) => AllPossible(toCopy) && AllPossible(toWrap) && AllPossible(toMove)
      case TransmitFails => true
    }

    /** Nothing that makes the driver reset the chip. */
    predicate Harmless() {
      match this
      case Arrivals(a) => AllWelcome(a)
      case PollCall(toCopy, toWrap, toMove) => AllWelcome(toCopy) && AllWelcome(toWrap) && AllWelcome(toMove)
      case TransmitFails => false
    }
  }

  predicate AllGood(slots: seq<Slot>) {
    forall i :: 0 <= i < |slots| ==> Fine(slots[i])
  }

  // ---------- The line of frames

  /** The chip takes a frame if the ring has room for it. */
  function Take(l: seq<Slot>, slot: Slot): seq<Slot> {
    if Spans(l) + slot.Span() < RX_BUF_LEN then l + [slot] else l
  }

  function TakeAll(l: seq<Slot>, arrivals: seq<Arrival>): seq<Slot>
    decreases |arrivals|
  {
    if arrivals == [] then l else TakeAll(Take(l, arrivals[0].slot), arrivals[1..])
  }

  /** One event: a frame in the ring when the call begins is handed over if it is good, and otherwise the
      chip is reset, which loses all that it has received by then. */
  function Step(l: seq<Slot>, e: Event): seq<Slot> {
    match e
    case Arrivals(a) => TakeAll(l, a)
    case PollCall(toCopy, toWrap, toMove) =>
      var l' := TakeAll(TakeAll(TakeAll(l, toCopy), toWrap), toMove);
      if l == [] then l' else if Fine(l[0]) && l' != [] then l'[1..] else []
    case TransmitFails => []
  }

  function Given(l: seq<Slot>, e: Event): seq<Frame> {
    if e.PollCall? && l != [] && Fine(l[0]) then [l[0].frame] else []
  }

  predicate ResetBy(l: seq<Slot>, e: Event) {
    e.TransmitFails? || (e.PollCall? && l != [] && !Fine(l[0]))
  }

  function Run(l: seq<Slot>, events: seq<Event>): seq<Slot>
    decreases |events|
  {
    if events == [] then l else Run(Step(l, events[0]), events[1..])
  }

  function Deliveries(l: seq<Slot>, events: seq<Event>): seq<Frame>
    decreases |events|
  {
    if events == [] then [] else Given(l, events[0]) + Deliveries(Step(l, events[0]), events[1..])
  }

  predicate Resets(l: seq<Slot>, events: seq<Event>)
    decreases |events|
  {
    events != [] && (ResetBy(l, events[0]) || Resets(Step(l, events[0]), events[1..]))
  }

  lemma {:induction false} RunOneMore(l: seq<Slot>, events: seq<Event>, e: Event)
    ensures var l' := Run(l, events);
      && Run(l, events + [e]) == Step(l', e)
      && Deliveries(l, events + [e]) == Deliveries(l, events) + Given(l', e)
      && (Resets(l, events + [e]) <==> Resets(l, events) || ResetBy(l', e))
    decreases |events|
  {
    if events == [] {
      assert [] + [e] == [e] && [e][1..] == [];
    } else {
      assert (events + [e])[1..] == events[1..] + [e];
      RunOneMore(Step(l, events[0]), events[1..], e);
    }
  }

  lemma NothingRun(l: seq<Slot>)
    ensures Run(l, []) == l && Deliveries(l, []) == [] && !Resets(l, [])
  {
  }

  lemma {:induction false} TakeAllAdds(l: seq<Slot>, arrivals: seq<Arrival>)
    ensures l <= TakeAll(l, arrivals)
    ensures AllGood(l) && AllWelcome(arrivals) ==> AllGood(TakeAll(l, arrivals))
    decreases |arrivals|
  {
    if arrivals != [] { TakeAllAdds(Take(l, arrivals[0].slot), arrivals[1..]); }
  }

  /** Only a bad frame or a failed transmission makes the driver reset the chip. */
  lemma {:induction false} HarmlessRun(l: seq<Slot>, events: seq<Event>)
    requires AllGood(l) && forall i :: 0 <= i < |events| ==> events[i].Harmless()
    ensures !Resets(l, events)
    decreases |events|
  {
    if events != [] {
      var e := events[0];
      assert e.Harmless();
      if e.Arrivals? {
        TakeAllAdds(l, e.a);
      } else {
        TakeAllAdds(l, e.toCopy);
        TakeAllAdds(TakeAll(l, e.toCopy), e.toWrap);
        TakeAllAdds(TakeAll(TakeAll(l, e.toCopy), e.toWrap), e.toMove);
      }
      HarmlessRun(Step(l, e), events[1..]);
    }
  }

  // ---------- Ordinary runs

  function AllOf(slots: seq<Slot>): seq<Arrival> {
    seq(|slots|, i requires 0 <= i < |slots| => Arrival(slots[i], [0, 0, 0, 0]))
  }

  function Polls(n: nat): seq<Event> {
    seq(n, i => PollCall([], [], []))
  }

  function Frames(slots: seq<Slot>): seq<Frame> {
    if slots == [] then [] else [slots[0].frame] + Frames(slots[1..])
  }

  /** Good frames that fit into the ring together are handed over, all of them and in the order of their
      arrival, by as many calls. */
  lemma OrdinaryRun(slots: seq<Slot>)
    requires AllGood(slots) && Spans(slots) < 8192 && forall i :: 0 <= i < |slots| ==> slots[i].status < 0x1_0000
    ensures var events := [Arrivals(AllOf(slots))] + Polls(|slots|);
      && Deliveries([], events) == Frames(slots) && Run([], events) == []
      && forall i :: 0 <= i < |events| ==> events[i].Possible()
  {
    hide Spans, TakeAll, Frames, Run, Deliveries, AllOf, Polls, Step, Given;
    NoSpans();
    AllTaken([], slots);
    RunFirst(slots, Polls(|slots|));
    AllPolled(slots);
    OrdinaryPossible(slots);
  }

  lemma RunFirst(slots: seq<Slot>, more: seq<Event>)
    requires TakeAll([], AllOf(slots)) == [] + slots
    ensures Run([], [Arrivals(AllOf(slots))] + more) == Run(slots, more)
    ensures Deliveries([], [Arrivals(AllOf(slots))] + more) == Deliveries(slots, more)
  {
    hide TakeAll, AllOf;
    var events := [Arrivals(AllOf(slots))] + more;
    assert events[1..] == more && [] + slots == slots;
    assert [] + Deliveries(slots, more) == Deliveries(slots, more);
  }

  lemma OrdinaryPossible(slots: seq<Slot>)
    requires forall i :: 0 <= i < |slots| ==> slots[i].status < 0x1_0000 && |slots[i].frame| + 4 <= 1518
    ensures var events := [Arrivals(AllOf(slots))] + Polls(|slots|);
      forall i :: 0 <= i < |events| ==> events[i].Possible()
  {
    var events := [Arrivals(AllOf(slots))] + Polls(|slots|);
    assert AllPossible(AllOf(slots));
    forall i | 0 <= i < |events| ensures events[i].Possible() {
      if i > 0 { assert events[i] == Polls(|slots|)[i - 1]; }
    }
  }

  lemma NoSpans()
    ensures Spans([]) == 0
  {
  }

  lemma {:induction false} SpansTogether(a: seq<Slot>, b: seq<Slot>)
    ensures Spans(a + b) == Spans(a) + Spans(b)
    decreases |a|
  {
    if a == [] {
      assert a + b == b;
    } else {
      assert (a + b)[1..] == a[1..] + b;
      SpansTogether(a[1..], b);
    }
  }

  lemma {:induction false} AllTaken(l: seq<Slot>, slots: seq<Slot>)
    requires Spans(l) + Spans(slots) < RX_BUF_LEN
    ensures TakeAll(l, AllOf(slots)) == l + slots
    decreases |slots|
  {
    if slots != [] {
      var one := [slots[0]];
      assert AllOf(slots)[1..] == AllOf(slots[1..]);
      assert |one[1..]| == 0;
      SpansTogether(l, one);
      AllTaken(l + one, slots[1..]);
      assert l + one + slots[1..] == l + slots;
    }
  }

  lemma {:induction false} AllPolled(slots: seq<Slot>)
    requires AllGood(slots)
    ensures Deliveries(slots, Polls(|slots|)) == Frames(slots) && Run(slots, Polls(|slots|)) == []
    decreases |slots|
  {
    if slots != [] {
      var events := Polls(|slots|);
      assert events[0] == PollCall([], [], []) && events[1..] == Polls(|slots| - 1);
      AllPolled(slots[1..]);
    }
  }
}

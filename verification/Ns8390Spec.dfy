/**
 What the 8390 and its driver do with frames, seen without memory, pages or pointers: a line of
 frames, two status bits, and a number of pages that the line must not fill.
 */
module Ns8390Spec {
  import opened FrameQueue

  const PAGE: nat := 256

  predicate GoodLength(n: nat) {
    ETH_ZLEN <= n <= ETH_FRAME_LEN
  }

  /** Header, frame and checksum, in whole pages. */
  function PagesFor(n: nat): (k: nat)
    ensures 4 + n + 4 <= k * PAGE < 4 + n + 4 + PAGE
  {
    (4 + n + 4 + PAGE - 1) / PAGE
  }

  function Used(frames: seq<Frame>): nat {
    if frames == [] then 0 else PagesFor(|frames[0]|) + Used(frames[1..])
  }

  /** How many frames the driver takes before it meets one of bad length. */
  function GoodPrefix(frames: seq<Frame>): (n: nat)
    ensures n <= |frames|
    ensures forall i :: 0 <= i < n ==> GoodLength(|frames[i]|)
    ensures n < |frames| ==> !GoodLength(|frames[n]|)
  {
    if frames == [] || !GoodLength(|frames[0]|) then 0 else 1 + GoodPrefix(frames[1..])
  }

  /** What the chip receives.  A frame may have any length; `Damage` is one with a bad checksum. */
  datatype ChipEvent = Arrival(status: byte, frame: Frame, checksum: seq<byte>) | Damage {
    predicate Possible() {
      Arrival? ==> status % 2 == 1 && |checksum| == 4
    }
  }

  predicate AllPossible(events: seq<ChipEvent>) {
    forall i :: 0 <= i < |events| ==> events[i].Possible()
  }

  /** What the chip receives while one call of the driver lasts: before the driver reads the receive
      status, before it reads CURR, before it copies, before it copies the part that has wrapped
      around, and before it writes BOUND. */
  datatype Gaps = Gaps(toStatus: seq<ChipEvent>, toCurr: seq<ChipEvent>, toCopy: seq<ChipEvent>,
                       toWrap: seq<ChipEvent>, toBound: seq<ChipEvent>)
  {
    predicate Possible() {
      && AllPossible(toStatus) && AllPossible(toCurr) && AllPossible(toCopy)
      && AllPossible(toWrap) && AllPossible(toBound)
    }
  }

  const Quiet: Gaps := Gaps([], [], [], [], [])

  /** Something is received between two calls, or the driver is called. */
  datatype Event = Received(e: ChipEvent) | PollCall(gaps: Gaps) {
    predicate Possible() {
      if Received? then e.Possible() else gaps.Possible()
    }
  }

  /** The frames in the ring, and PRX and OVW. */
  datatype Line = Line(pending: seq<Frame>, received: bool, overflow: bool) {

    /** An overrun has been cleared: what could be read is gone. */
    function Cleared(): Line {
      Line(if received then pending[GoodPrefix(pending)..] else pending, received, false)
    }
  }

  /** The chip takes a frame if it leaves a page free; else it reports an overrun, and takes nothing
      until that is cleared. */
  function Take(capacity: nat, l: Line, e: ChipEvent): Line {
    if l.overflow then l
    else if e.Damage? then l.(received := false)
    else if Used(l.pending) + PagesFor(|e.frame|) < capacity then Line(l.pending + [e.frame], true, false)
    else l.(overflow := true)
  }

  function TakeAll(capacity: nat, l: Line, events: seq<ChipEvent>): Line
    decreases |events|
  {
    if events == [] then l else TakeAll(capacity, Take(capacity, l, events[0]), events[1..])
  }

  /** What the driver sees in one call: the receive status, then the ring. */
  function AtStatus(capacity: nat, l: Line, g: Gaps): Line {
    TakeAll(capacity, l, g.toStatus)
  }

  function AtCurr(capacity: nat, l: Line, g: Gaps): Line {
    TakeAll(capacity, AtStatus(capacity, l, g), g.toCurr)
  }

  function AtBound(capacity: nat, l: Line, g: Gaps): Line {
    TakeAll(capacity, TakeAll(capacity, TakeAll(capacity, AtCurr(capacity, l, g), g.toCopy), g.toWrap), g.toBound)
  }

  /** The call hands over the oldest frame. */
  predicate Delivers(capacity: nat, l: Line, g: Gaps) {
    var seen := AtCurr(capacity, l, g).pending;
    !l.overflow && AtStatus(capacity, l, g).received && seen != [] && GoodLength(|seen[0]|)
  }

  /** One event.  The frame handed over keeps its pages until the end of the call. */
  function Step(capacity: nat, l: Line, e: Event): Line {
    match e
    case Received(ce) => Take(capacity, l, ce)
    case PollCall(g) =>
      if l.overflow then l.Cleared()
      else
        var l' := AtBound(capacity, l, g);
        if Delivers(capacity, l, g) && l'.pending != [] then l'.(pending := l'.pending[1..]) else l'
  }

  function Run(capacity: nat, l: Line, events: seq<Event>): Line
    decreases |events|
  {
    if events == [] then l else Run(capacity, Step(capacity, l, events[0]), events[1..])
  }

  /** What the caller gets from one event. */
  function Given(capacity: nat, l: Line, e: Event): seq<Frame> {
    if e.PollCall? && Delivers(capacity, l, e.gaps) then [AtCurr(capacity, l, e.gaps).pending[0]] else []
  }

  function Deliveries(capacity: nat, l: Line, events: seq<Event>): seq<Frame>
    decreases |events|
  {
    if events == [] then []
    else Given(capacity, l, events[0]) + Deliveries(capacity, Step(capacity, l, events[0]), events[1..])
  }

  /** Somewhere an overrun is cleared. */
  predicate Clears(capacity: nat, l: Line, events: seq<Event>)
    decreases |events|
  {
    events != [] &&
    ((events[0].PollCall? && l.overflow) || Clears(capacity, Step(capacity, l, events[0]), events[1..]))
  }

  // ---------- What follows

  /** The chip only adds at the end. */
  lemma {:induction false} TakeAllAdds(capacity: nat, l: Line, events: seq<ChipEvent>)
    ensures l.pending <= TakeAll(capacity, l, events).pending
    ensures l.overflow ==> TakeAll(capacity, l, events) == l
    decreases |events|
  {
    if events != [] { TakeAllAdds(capacity, Take(capacity, l, events[0]), events[1..]); }
  }

  lemma PollAdds(capacity: nat, l: Line, g: Gaps)
    ensures l.pending <= AtCurr(capacity, l, g).pending <= AtBound(capacity, l, g).pending
    ensures l.overflow ==> AtBound(capacity, l, g) == l
  {
    var l2 := AtCurr(capacity, l, g);
    var l3 := TakeAll(capacity, l2, g.toCopy);
    TakeAllAdds(capacity, l, g.toStatus);
    TakeAllAdds(capacity, AtStatus(capacity, l, g), g.toCurr);
    TakeAllAdds(capacity, l2, g.toCopy);
    TakeAllAdds(capacity, l3, g.toWrap);
    TakeAllAdds(capacity, TakeAll(capacity, l3, g.toWrap), g.toBound);
  }

  /** What one call does that finds no overrun, in the numbers of the standard: an Ethernet frame has
      60 to 1514 bytes without its checksum.  The frame is handed over, or everything stays. */
  lemma PollMeans(capacity: nat, l: Line)
    requires !l.overflow
    ensures var e := PollCall(Quiet);
      if l.received && l.pending != [] && 60 <= |l.pending[0]| <= 1514 then
        Given(capacity, l, e) == [l.pending[0]] && Step(capacity, l, e) == l.(pending := l.pending[1..])
      else Given(capacity, l, e) == [] && Step(capacity, l, e) == l
  {
  }

  /** And if the chip goes on receiving meanwhile. */
  lemma PollMeansBusy(capacity: nat, l: Line, g: Gaps)
    requires !l.overflow
    ensures var seen := AtCurr(capacity, l, g).pending; var last := AtBound(capacity, l, g);
      if AtStatus(capacity, l, g).received && seen != [] && 60 <= |seen[0]| <= 1514 then
        && Given(capacity, l, PollCall(g)) == [seen[0]] && last.pending != [] && last.pending[0] == seen[0]
        && Step(capacity, l, PollCall(g)) == last.(pending := last.pending[1..])
      else Given(capacity, l, PollCall(g)) == [] && Step(capacity, l, PollCall(g)) == last
  {
    PollAdds(capacity, l, g);
  }

  predicate Blocked(l: Line) {
    l.pending != [] && !(60 <= |l.pending[0]| <= 1514)
  }

  /** A frame of bad length at the head of the ring stays there, and nothing is handed over any
      more, whatever happens; clearing an overrun does not help. */
  lemma {:induction false} BadLengthBlocks(capacity: nat, l: Line, events: seq<Event>)
    requires Blocked(l)
    ensures Deliveries(capacity, l, events) == []
    ensures var l' := Run(capacity, l, events); Blocked(l') && l'.pending[0] == l.pending[0]
    decreases |events|
  {
    if events != [] {
      var e := events[0];
      if e.PollCall? { PollAdds(capacity, l, e.gaps); }
      BadLengthBlocks(capacity, Step(capacity, l, e), events[1..]);
    }
  }

  /** Clearing an overrun empties the ring exactly if it was empty, or PRX is set and no frame in it
      has a bad length. */
  lemma ClearedIsEmptyIff(l: Line)
    ensures l.Cleared().pending == [] <==>
      l.pending == [] || (l.received && forall i :: 0 <= i < |l.pending| ==> 60 <= |l.pending[i]| <= 1514)
  {
    var n := GoodPrefix(l.pending);
    if l.received && n < |l.pending| {
      assert l.pending[n..] != [] && !GoodLength(|l.pending[n]|);
    }
  }

  // ---------- Ordinary runs

  function Arrivals(frames: seq<Frame>, status: byte): seq<Event> {
    seq(|frames|, i requires 0 <= i < |frames| => Received(Arrival(status, frames[i], [0, 0, 0, 0])))
  }

  function Polls(n: nat): seq<Event> {
    seq(n, i => PollCall(Quiet))
  }

  /** Frames of ordinary length that fit into the ring together are handed over, all of them and in the
      order of their arrival, by as many calls.  Every status with the lowest bit set is that of a
      good frame. */
  lemma OrdinaryRun(capacity: nat, frames: seq<Frame>, status: byte)
    requires status % 2 == 1 && frames != [] && Used(frames) < capacity
    requires forall i :: 0 <= i < |frames| ==> 60 <= |frames[i]| <= 1514
    ensures var events := Arrivals(frames, status) + Polls(|frames|);
      && Deliveries(capacity, Line([], false, false), events) == frames
      && Run(capacity, Line([], false, false), events) == Line([], true, false)
      && forall i :: 0 <= i < |events| ==> events[i].Possible()
  {
    hide Run, Deliveries, Used;
    var l := Line([], false, false);
    assert l.pending + frames == frames;
    UsedNothing();
    AllTaken(capacity, l, frames, status, Polls(|frames|));
    AllPolled(capacity, frames);
  }

  lemma UsedNothing()
    ensures Used([]) == 0
  {
  }

  lemma {:induction false} UsedTogether(a: seq<Frame>, b: seq<Frame>)
    ensures Used(a + b) == Used(a) + Used(b)
    decreases |a|
  {
    if a == [] {
      assert a + b == b;
    } else {
      assert (a + b)[1..] == a[1..] + b;
      UsedTogether(a[1..], b);
    }
  }

  lemma {:induction false} AllTaken(capacity: nat, l: Line, frames: seq<Frame>, status: byte, more: seq<Event>)
    requires !l.overflow && Used(l.pending) + Used(frames) < capacity
    ensures var l' := if frames == [] then l else Line(l.pending + frames, true, false);
      && Run(capacity, l, Arrivals(frames, status) + more) == Run(capacity, l', more)
      && Deliveries(capacity, l, Arrivals(frames, status) + more) == Deliveries(capacity, l', more)
    decreases |frames|
  {
    if frames == [] {
      assert Arrivals(frames, status) + more == more;
    } else {
      var f, rest := frames[0], frames[1..];
      var events := Arrivals(frames, status) + more;
      assert events[0] == Received(Arrival(status, f, [0, 0, 0, 0])) && events[1..] == Arrivals(rest, status) + more;
      UsedTogether(l.pending, [f]);
      var one: seq<Frame> := [f];
      assert |one[1..]| == 0;
      var l1 := Line(l.pending + [f], true, false);
      assert Step(capacity, l, events[0]) == l1;
      AllTaken(capacity, l1, rest, status, more);
      assert l.pending + [f] + rest == l.pending + frames;
      assert rest == [] ==> l.pending + frames == l.pending + [f];
    }
  }

  lemma {:induction false} AllPolled(capacity: nat, frames: seq<Frame>)
    requires forall i :: 0 <= i < |frames| ==> 60 <= |frames[i]| <= 1514
    ensures Deliveries(capacity, Line(frames, true, false), Polls(|frames|)) == frames
    ensures Run(capacity, Line(frames, true, false), Polls(|frames|)) == Line([], true, false)
    decreases |frames|
  {
    if frames != [] {
      var events := Polls(|frames|);
      assert events[0] == PollCall(Quiet) && events[1..] == Polls(|frames| - 1);
      PollMeans(capacity, Line(frames, true, false));
      AllPolled(capacity, frames[1..]);
      assert [frames[0]] + frames[1..] == frames;
    }
  }

  // ---------- Room

  /** The pages that everything received needs together. */
  function DemandOf(events: seq<ChipEvent>): nat {
    if events == [] then 0
    else (if events[0].Arrival? then PagesFor(|events[0].frame|) else 0) + DemandOf(events[1..])
  }

  function Demand(events: seq<Event>): nat {
    if events == [] then 0
    else
      (match events[0]
       case Received(e) => DemandOf([e])
       case PollCall(g) => DemandOf(g.toStatus) + DemandOf(g.toCurr) + DemandOf(g.toCopy) + DemandOf(g.toWrap) + DemandOf(g.toBound))
      + Demand(events[1..])
  }

  /** Room left for `n` more pages. */
  predicate Roomy(capacity: nat, l: Line, n: nat) {
    !l.overflow && Used(l.pending) + n < capacity
  }

  lemma {:induction false} TakeAllRoomy(capacity: nat, l: Line, events: seq<ChipEvent>, n: nat)
    requires Roomy(capacity, l, DemandOf(events) + n)
    ensures Roomy(capacity, TakeAll(capacity, l, events), n)
    decreases |events|
  {
    if events != [] {
      if events[0].Arrival? { UsedAppend(l.pending, events[0].frame); }
      TakeAllRoomy(capacity, Take(capacity, l, events[0]), events[1..], n);
    }
  }

  /** No overrun is ever cleared if the ring has room for everything at once. */
  lemma {:induction false} RoomForAll(capacity: nat, l: Line, events: seq<Event>)
    requires Roomy(capacity, l, Demand(events))
    ensures !Clears(capacity, l, events)
    decreases |events|
  {
    if events != [] {
      StepRoomy(capacity, l, events[0], Demand(events[1..]));
      RoomForAll(capacity, Step(capacity, l, events[0]), events[1..]);
    }
  }

  lemma StepRoomy(capacity: nat, l: Line, e: Event, n: nat)
    requires Roomy(capacity, l, Demand([e]) + n)
    ensures Roomy(capacity, Step(capacity, l, e), n)
  {
    hide Roomy;
    assert [e][1..] == [];
    match e
    case Received(ce) =>
      assert [ce][1..] == [];
      assert TakeAll(capacity, l, [ce]) == Take(capacity, l, ce);
      TakeAllRoomy(capacity, l, [ce], n);
    case PollCall(g) =>
      var d5 := DemandOf(g.toBound) + n;
      var d4 := DemandOf(g.toWrap) + d5;
      var d3 := DemandOf(g.toCopy) + d4;
      var l2 := AtCurr(capacity, l, g);
      var l3 := TakeAll(capacity, l2, g.toCopy);
      assert Demand([e]) + n == DemandOf(g.toStatus) + (DemandOf(g.toCurr) + d3);
      TakeAllRoomy(capacity, l, g.toStatus, DemandOf(g.toCurr) + d3);
      TakeAllRoomy(capacity, AtStatus(capacity, l, g), g.toCurr, d3);
      TakeAllRoomy(capacity, l2, g.toCopy, d4);
      TakeAllRoomy(capacity, l3, g.toWrap, d5);
      TakeAllRoomy(capacity, TakeAll(capacity, l3, g.toWrap), g.toBound, n);
      LessIsRoomy(capacity, l, AtBound(capacity, l, g), Demand([e]) + n, n);
  }

  lemma LessIsRoomy(capacity: nat, l: Line, l': Line, m: nat, n: nat)
    requires Roomy(capacity, l, m) && Roomy(capacity, l', n)
    ensures !l.overflow
    ensures l'.pending != [] ==> Roomy(capacity, l'.(pending := l'.pending[1..]), n)
  {
  }

  function Zeros(n: nat): Frame {
    seq(n, _ => 0)
  }

  /** Two frames of 1515 bytes and an overrun: after it is cleared, the ring is as full as before. */
  lemma OversizeStaysInRing()
    ensures var f := Received(Arrival(1, Zeros(1515), [0, 0, 0, 0]));
      var l := Run(16, Line([], false, false), [f, f, f]);
      && l == Line([Zeros(1515), Zeros(1515)], true, true)
      && Run(16, l, [PollCall(Quiet)]) == l.(overflow := false)
  {
    var a := Arrival(1, Zeros(1515), [0, 0, 0, 0]);
    var f := Received(a);
    var l0 := Line([], false, false);
    var l1, l2 := Line([Zeros(1515)], true, false), Line([Zeros(1515), Zeros(1515)], true, false);
    assert Step(16, l0, f) == l1;
    UsedOfTwo(Zeros(1515));
    assert Step(16, l1, f) == l2;
    assert Step(16, l2, f) == l2.(overflow := true);
    ThreeSteps(16, l0, f, f, f);
    OneStep(16, l2.(overflow := true), PollCall(Quiet));
  }

  /** A good frame, a damaged one and an overrun: the good frame is still there afterwards. */
  lemma DamageKeepsRingFull()
    ensures var f := Received(Arrival(1, Zeros(600), [0, 0, 0, 0]));
      var l := Run(4, Line([], false, false), [f, Received(Damage), f]);
      && l == Line([Zeros(600)], false, true)
      && Run(4, l, [PollCall(Quiet)]) == Line([Zeros(600)], false, false)
  {
    var f := Received(Arrival(1, Zeros(600), [0, 0, 0, 0]));
    var l0, l1 := Line([], false, false), Line([Zeros(600)], true, false);
    UsedOfTwo(Zeros(600));
    assert Step(4, l0, f) == l1;
    assert Step(4, l1, Received(Damage)) == l1.(received := false);
    assert Step(4, l1.(received := false), f) == Line([Zeros(600)], false, true);
    ThreeSteps(4, l0, f, Received(Damage), f);
    OneStep(4, Line([Zeros(600)], false, true), PollCall(Quiet));
  }

  lemma UsedOfTwo(f: Frame)
    ensures Used([]) == 0 && Used([f]) == PagesFor(|f|) && Used([f, f]) == 2 * PagesFor(|f|)
  {
    assert [f][1..] == [] && [f, f][1..] == [f];
  }

  lemma OneStep(capacity: nat, l: Line, e: Event)
    ensures Run(capacity, l, [e]) == Step(capacity, l, e)
  {
    assert [e][1..] == [];
  }

  lemma ThreeSteps(capacity: nat, l: Line, e1: Event, e2: Event, e3: Event)
    ensures Run(capacity, l, [e1, e2, e3]) == Step(capacity, Step(capacity, Step(capacity, l, e1), e2), e3)
  {
    assert [e1, e2, e3][1..] == [e2, e3] && [e2, e3][1..] == [e3];
    var l2 := Step(capacity, Step(capacity, l, e1), e2);
    OneStep(capacity, l2, e3);
    assert Run(capacity, Step(capacity, l, e1), [e2, e3]) == Run(capacity, l2, [e3]);
  }

  // ---------- Runs from the other end

  lemma {:induction false} RunOneMore(capacity: nat, l: Line, events: seq<Event>, e: Event)
    ensures var l' := Run(capacity, l, events);
      && Run(capacity, l, events + [e]) == Step(capacity, l', e)
      && Deliveries(capacity, l, events + [e]) == Deliveries(capacity, l, events) + Given(capacity, l', e)
      && (Clears(capacity, l, events + [e]) <==> Clears(capacity, l, events) || (e.PollCall? && l'.overflow))
    decreases |events|
  {
    if events == [] {
      assert [] + [e] == [e] && [e][1..] == [];
    } else {
      assert (events + [e])[1..] == events[1..] + [e];
      RunOneMore(capacity, Step(capacity, l, events[0]), events[1..], e);
    }
  }

  lemma {:induction false} UsedAppend(frames: seq<Frame>, f: Frame)
    ensures Used(frames + [f]) == Used(frames) + PagesFor(|f|)
  {
    if frames == [] {
      assert frames + [f] == [f] && [f][1..] == [];
    } else {
      assert (frames + [f])[1..] == frames[1..] + [f];
      UsedAppend(frames[1..], f);
    }
  }
}

/**
 What a receive ring is for: a queue of frames, seen from outside.  Both network drivers are
 proved to refine it.
 */
module FrameQueue {

  type byte = b: int | 0 <= b < 0x100
  type Frame = seq<byte>

  const ETH_ZLEN: nat := 60
  const ETH_FRAME_LEN: nat := 1514

  /** Every frame the device has accepted, how many of them have left the ring, and which of those
      were handed to the caller (the others were dropped while the ring was being cleared). */
  datatype Fifo = Fifo(accepted: seq<Frame>, gone: nat, handed: seq<nat>) {

    ghost predicate Valid() {
      && gone <= |accepted|
      && (forall i :: 0 <= i < |handed| ==> handed[i] < gone)
      && (forall i, j :: 0 <= i < j < |handed| ==> handed[i] < handed[j])
    }

    /** The frames in the ring, oldest first. */
    function Pending(): seq<Frame>
      requires gone <= |accepted|
    {
      accepted[gone..]
    }

    function Arrive(f: Frame): Fifo {
      this.(accepted := accepted + [f])
    }

    /** The oldest frame is handed to the caller. */
    function HandOver(): Fifo {
      Fifo(accepted, gone + 1, handed + [gone])
    }

    function Drop(): Fifo {
      this.(gone := gone + 1)
    }

    function DropFirst(n: nat): Fifo {
      this.(gone := gone + n)
    }

    function DropAll(): Fifo {
      this.(gone := |accepted|)
    }
  }

  const Empty: Fifo := Fifo([], 0, [])

  lemma StepsKeepValid(q: Fifo, f: Frame)
    requires q.Valid()
    ensures q.Arrive(f).Valid() && q.Arrive(f).Pending() == q.Pending() + [f]
    ensures q.Pending() != [] ==>
      && q.HandOver().Valid() && q.HandOver().Pending() == q.Pending()[1..]
      && q.Drop().Valid() && q.Drop().Pending() == q.Pending()[1..]
      && q.Pending()[0] == q.accepted[q.gone]
    ensures q.DropAll().Valid() && q.DropAll().Pending() == []
  {
    assert q.Arrive(f).accepted[q.gone..] == q.accepted[q.gone..] + [f];
  }

  /** The frames the caller got, in the order it got them. */
  function Handed(q: Fifo): (r: seq<Frame>)
    requires q.Valid()
    ensures |r| == |q.handed|
  {
    seq(|q.handed|, i requires 0 <= i < |q.handed| => q.accepted[q.handed[i]])
  }

  /** Strictly increasing indices below their own number are all of them. */
  lemma {:induction false} IncreasingIsIdentity(s: seq<nat>, n: nat)
    requires forall i :: 0 <= i < |s| ==> s[i] < n
    requires forall i, j :: 0 <= i < j < |s| ==> s[i] < s[j]
    ensures |s| <= n
    ensures |s| == n ==> forall i :: 0 <= i < n ==> s[i] == i
  {
    if s != [] {
      var last := |s| - 1;
      IncreasingIsIdentity(s[..last], s[last]);
      if |s| == n {
        forall i | 0 <= i < n ensures s[i] == i {
          if i < last { assert s[..last][i] == i; }
        }
      }
    }
  }

  /** Delivery is first in, first out, and nothing is lost unless it was dropped: when every frame
      that left the ring was handed over, the caller has got exactly the oldest frames, in order. */
  lemma NothingLost(q: Fifo)
    requires q.Valid()
    ensures |q.handed| <= q.gone
    ensures |q.handed| == q.gone ==> Handed(q) + q.Pending() == q.accepted
  {
    IncreasingIsIdentity(q.handed, q.gone);
    if |q.handed| == q.gone {
      assert Handed(q) == q.accepted[..q.gone];
    }
  }

  // ---------- Runs

  /** `q` has come out of `q0`, and `got` was handed over on the way. */
  ghost predicate FollowsFrom(q0: Fifo, q: Fifo, got: seq<Frame>, dropped: bool) {
    && q0.Valid() && q.Valid()
    && q0.accepted <= q.accepted
    && Handed(q) == Handed(q0) + got
    && (!dropped ==> q0.Pending() + q.accepted[|q0.accepted|..] == got + q.Pending())
  }

  lemma FollowsAtOnce(q: Fifo)
    requires q.Valid()
    ensures FollowsFrom(q, q, [], false)
  {
  }

  lemma FollowsMeans(q0: Fifo, q: Fifo, got: seq<Frame>, dropped: bool)
    requires FollowsFrom(q0, q, got, dropped)
    ensures q0.Valid() && q.Valid() && q0.accepted <= q.accepted && Handed(q) == Handed(q0) + got
    ensures !dropped ==> q0.Pending() + q.accepted[|q0.accepted|..] == got + q.Pending()
  {
  }

  /** More frames have been accepted, and none has left. */
  ghost predicate Grown(q: Fifo, q': Fifo) {
    q.accepted <= q'.accepted && q'.gone == q.gone && q'.handed == q.handed
  }

  lemma GrownAtOnce(q: Fifo)
    ensures Grown(q, q)
  {
  }

  lemma GrownByOne(q: Fifo, f: Frame)
    ensures Grown(q, q.Arrive(f))
  {
  }

  lemma GrownTwice(q: Fifo, q': Fifo, q'': Fifo)
    requires Grown(q, q') && Grown(q', q'')
    ensures Grown(q, q'')
  {
  }

  lemma GrownFollows(q0: Fifo, q: Fifo, q': Fifo, got: seq<Frame>, dropped: bool)
    requires FollowsFrom(q0, q, got, dropped) && Grown(q, q')
    ensures FollowsFrom(q0, q', got, dropped)
  {
    var added, more := q.accepted[|q0.accepted|..], q'.accepted[|q.accepted|..];
    assert q'.accepted == q.accepted + more;
    assert q'.accepted[|q0.accepted|..] == added + more;
    assert q'.Pending() == q.Pending() + more;
    assert Handed(q') == Handed(q);
    assert q0.Pending() + (added + more) == (q0.Pending() + added) + more;
    assert got + (q.Pending() + more) == (got + q.Pending()) + more;
  }

  lemma LeaveFollows(q0: Fifo, q: Fifo, got: seq<Frame>, dropped: bool, n: nat)
    requires FollowsFrom(q0, q, got, dropped) && n <= |q.Pending()|
    ensures FollowsFrom(q0, q.DropFirst(n), got, true) && FollowsFrom(q0, q, got, true)
    ensures q.DropFirst(n).Pending() == q.Pending()[n..]
    ensures q.Pending() != [] ==> FollowsFrom(q0, q.HandOver(), got + [q.Pending()[0]], dropped)
  {
    StepsKeepValid(q, []);
    assert Handed(q.DropFirst(n)) == Handed(q);
    if q.Pending() != [] {
      var h := q.HandOver();
      assert Handed(h) == Handed(q) + [q.Pending()[0]];
      assert got + q.Pending() == got + [q.Pending()[0]] + h.Pending();
    }
  }
}

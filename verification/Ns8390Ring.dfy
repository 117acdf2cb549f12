/**
 The receive ring of the 8390: pages of 256 bytes between `start` and `stop` in the memory of the
 card.  A frame occupies whole pages, after a header that names the page of the next frame.
 */
module Ns8390Ring {
  import opened FrameQueue
  import opened Ns8390Spec

  /** The ring occupies the pages [start, stop); `stop` is an unsigned char in the driver. */
  datatype Ring = Ring(start: nat, stop: nat) {
    predicate Valid() {
      start + 2 <= stop <= 0xFF
    }

    function Pages(): nat {
      if start <= stop then stop - start else 0
    }

    predicate Has(page: nat) {
      start <= page < stop
    }

    /** `k` pages further on. */
    function Ahead(page: nat, k: nat): (r: nat)
      requires Valid() && Has(page) && k <= Pages()
      ensures Has(r)
    {
      if page + k >= stop then page + k - Pages() else page + k
    }

    /** The address of byte `i` of what begins at `page`. */
    function Addr(page: nat, i: nat): (a: nat)
      requires Valid() && Has(page) && i < Pages() * PAGE
      ensures start * PAGE <= a < stop * PAGE
    {
      var a := page * PAGE + i;
      if a >= stop * PAGE then a - Pages() * PAGE else a
    }
  }

  /** `frame` lies at `page`: status, next page and length in the header, then the bytes. */
  ghost predicate At(r: Ring, mem: seq<byte>, page: nat, frame: Frame)
    requires r.Valid() && |mem| == r.stop * PAGE && r.Has(page)
  {
    var pages := PagesFor(|frame|);
    && pages < r.Pages()
    && mem[r.Addr(page, 0)] % 2 == 1
    && mem[r.Addr(page, 1)] == r.Ahead(page, pages)
    && mem[r.Addr(page, 2)] as int + 0x100 * mem[r.Addr(page, 3)] as int == |frame| + 4
    && forall i :: 0 <= i < |frame| ==> mem[r.Addr(page, 4 + i)] == frame[i]
  }

  /** The frames lie one behind the other from `page` to `curr`. */
  ghost predicate Chain(r: Ring, mem: seq<byte>, page: nat, frames: seq<Frame>, curr: nat)
    requires r.Valid() && |mem| == r.stop * PAGE && r.Has(page)
    decreases |frames|
  {
    if frames == [] then page == curr
    else At(r, mem, page, frames[0]) && Chain(r, mem, r.Ahead(page, PagesFor(|frames[0]|)), frames[1..], curr)
  }

  /** What is in the memory of the card at the head of a frame: an odd status, the page of the next frame,
      and the length with the checksum, low byte first. */
  lemma HeaderBytes(r: Ring, mem: seq<byte>, page: nat, frame: Frame)
    requires r.Valid() && |mem| == r.stop * PAGE && r.Has(page) && At(r, mem, page, frame)
    ensures var at, n, next := page * 256, |frame| + 4, page + (|frame| + 8 + 255) / 256;
      && mem[at] % 2 == 1
      && mem[at + 1] == (if next >= r.stop then next - (r.stop - r.start) else next)
      && mem[at + 2] == n % 256 && mem[at + 3] == n / 256
  {
  }

  // ---------- Positions

  lemma AheadTwice(r: Ring, page: nat, j: nat, k: nat)
    requires r.Valid() && r.Has(page) && j + k <= r.Pages()
    ensures r.Ahead(r.Ahead(page, j), k) == r.Ahead(page, j + k)
  {
  }

  lemma AddrAhead(r: Ring, page: nat, k: nat, i: nat)
    requires r.Valid() && r.Has(page) && k * PAGE + i < r.Pages() * PAGE
    ensures r.Addr(r.Ahead(page, k), i) == r.Addr(page, k * PAGE + i)
  {
  }

  /** The read pointer meets the write pointer exactly when the queue is empty. */
  lemma {:induction false} ChainEnds(r: Ring, mem: seq<byte>, page: nat, frames: seq<Frame>, curr: nat)
    requires r.Valid() && |mem| == r.stop * PAGE && r.Has(page)
    requires Chain(r, mem, page, frames, curr) && Used(frames) < r.Pages()
    ensures r.Has(curr) && curr == r.Ahead(page, Used(frames))
    ensures page == curr <==> frames == []
    decreases |frames|
  {
    if frames != [] {
      var next := r.Ahead(page, PagesFor(|frames[0]|));
      ChainEnds(r, mem, next, frames[1..], curr);
      AheadTwice(r, page, PagesFor(|frames[0]|), Used(frames[1..]));
    }
  }

  // ---------- Reading and writing

  /** `b` has the bytes of `a` in the first `n` bytes from `page`. */
  ghost predicate Agree(r: Ring, a: seq<byte>, b: seq<byte>, page: nat, n: nat)
    requires r.Valid() && |a| == |b| == r.stop * PAGE && r.Has(page) && n <= r.Pages() * PAGE
  {
    forall i :: 0 <= i < n ==> b[r.Addr(page, i)] == a[r.Addr(page, i)]
  }

  lemma AtSurvives(r: Ring, a: seq<byte>, b: seq<byte>, page: nat, frame: Frame)
    requires r.Valid() && |a| == |b| == r.stop * PAGE && r.Has(page)
    requires At(r, a, page, frame) && Agree(r, a, b, page, PagesFor(|frame|) * PAGE)
    ensures At(r, b, page, frame)
  {
  }

  lemma {:induction false} ChainSurvives(r: Ring, a: seq<byte>, b: seq<byte>, page: nat, frames: seq<Frame>, curr: nat)
    requires r.Valid() && |a| == |b| == r.stop * PAGE && r.Has(page)
    requires Used(frames) < r.Pages()
    requires Chain(r, a, page, frames, curr) && Agree(r, a, b, page, Used(frames) * PAGE)
    ensures Chain(r, b, page, frames, curr)
    decreases |frames|
  {
    if frames != [] {
      var k := PagesFor(|frames[0]|);
      var next := r.Ahead(page, k);
      AtSurvives(r, a, b, page, frames[0]);
      forall i | 0 <= i < Used(frames[1..]) * PAGE ensures b[r.Addr(next, i)] == a[r.Addr(next, i)] {
        AddrAhead(r, page, k, i);
      }
      ChainSurvives(r, a, b, next, frames[1..], curr);
    }
  }

  lemma {:induction false} ChainAppend(r: Ring, mem: seq<byte>, page: nat, frames: seq<Frame>, curr: nat, frame: Frame)
    requires r.Valid() && |mem| == r.stop * PAGE && r.Has(page) && r.Has(curr)
    requires Chain(r, mem, page, frames, curr) && At(r, mem, curr, frame)
    ensures Chain(r, mem, page, frames + [frame], r.Ahead(curr, PagesFor(|frame|)))
    ensures Used(frames + [frame]) == Used(frames) + PagesFor(|frame|)
    decreases |frames|
  {
    if frames == [] {
      assert [frame][1..] == [];
    } else {
      assert (frames + [frame])[1..] == frames[1..] + [frame];
      ChainAppend(r, mem, r.Ahead(page, PagesFor(|frames[0]|)), frames[1..], curr, frame);
    }
  }

  /** The bytes of a write that begins at `page` and wraps around at the end of the ring. */
  function Written(r: Ring, mem: seq<byte>, page: nat, bytes: seq<byte>): (m: seq<byte>)
    requires r.Valid() && |mem| == r.stop * PAGE && r.Has(page) && |bytes| <= r.Pages() * PAGE
    ensures |m| == |mem|
  {
    seq(|mem|, a requires 0 <= a < |mem| =>
      var off := if a >= page * PAGE then a - page * PAGE else a + r.Pages() * PAGE - page * PAGE;
      if a >= r.start * PAGE && off < |bytes| then bytes[off] else mem[a])
  }

  lemma WrittenAt(r: Ring, mem: seq<byte>, page: nat, bytes: seq<byte>, i: nat)
    requires r.Valid() && |mem| == r.stop * PAGE && r.Has(page) && |bytes| <= r.Pages() * PAGE && i < r.Pages() * PAGE
    ensures Written(r, mem, page, bytes)[r.Addr(page, i)] == if i < |bytes| then bytes[i] else mem[r.Addr(page, i)]
  {
  }

  /** A write at the end of the queue that fits leaves everything queued as it was. */
  lemma WrittenAgrees(r: Ring, mem: seq<byte>, page: nat, n: nat, bytes: seq<byte>)
    requires r.Valid() && |mem| == r.stop * PAGE && r.Has(page) && n < r.Pages()
    requires n * PAGE + |bytes| <= r.Pages() * PAGE
    ensures Agree(r, mem, Written(r, mem, r.Ahead(page, n), bytes), page, n * PAGE)
  {
    var at := r.Ahead(page, n);
    forall i | 0 <= i < n * PAGE ensures Written(r, mem, at, bytes)[r.Addr(page, i)] == mem[r.Addr(page, i)] {
      var k := (r.Pages() - n) * PAGE + i;
      AddrAhead(r, page, n, (r.Pages() - n) * PAGE - 1);
      assert r.Addr(at, k) == r.Addr(page, i);
      WrittenAt(r, mem, at, bytes, k);
    }
  }
}

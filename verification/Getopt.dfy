/**
 The scanner of lib/getopt.c: static scan state kept between calls, and an argument vector
 permuted in place.  Every call is proved against the permutation-free parse of `GetoptSpec`.
 */
module Getopt {
  import opened Common
  import opened GetoptSpec

  // ---------- The layout of the vector between two calls

  /** `a` is `orig` with the first `ind` elements rearranged: the options taken so far fill
      [1, first) and [last, ind), the operands skipped so far fill [first, last), and everything
      from `ind` on has not been touched. */
  ghost predicate Layout(a: seq<string>, orig: seq<string>, first: int, last: int, ind: int,
                         options: seq<string>, operands: seq<string>) {
    && |a| == |orig|
    && 1 <= first <= last <= ind <= |a|
    && a[..1] == orig[..1]
    && a[ind..] == orig[ind..]
    && a[1..first] + a[last..ind] == options
    && a[first..last] == operands
  }

  /** What `exchange` is for: [first, last) and [last, ind) change places. */
  function Rotated<T>(a: seq<T>, first: nat, last: nat, ind: nat): (r: seq<T>)
    requires first <= last <= ind <= |a|
    ensures |r| == |a|
  {
    a[..first] + a[last..ind] + a[first..last] + a[ind..]
  }

  lemma LayoutRotated(a: seq<string>, orig: seq<string>, first: int, last: int, ind: int,
                      options: seq<string>, operands: seq<string>)
    requires Layout(a, orig, first, last, ind, options, operands)
    ensures Layout(Rotated(a, first, last, ind), orig, first + (ind - last), ind, ind, options, operands)
  {
    var r := Rotated(a, first, last, ind);
    var f := first + (ind - last);
    assert r[..1] == a[..1];
    assert r[1..f] == a[1..first] + a[last..ind];
    assert r[f..ind] == a[first..last];
    assert r[ind..] == a[ind..];
    assert r[ind..ind] == [];
  }

  lemma LayoutSkip(a: seq<string>, orig: seq<string>, first: int, ind: int,
                   options: seq<string>, operands: seq<string>)
    requires Layout(a, orig, first, ind, ind, options, operands) && ind < |a|
    ensures Layout(a, orig, first, ind + 1, ind + 1, options, operands + [orig[ind]])
    ensures a[ind] == orig[ind]
  {
    assert a[ind] == a[ind..][0];
    assert a[first..ind + 1] == a[first..ind] + [a[ind]];
    assert a[ind + 1..] == a[ind..][1..] == orig[ind..][1..] == orig[ind + 1..];
  }

  lemma LayoutTake(a: seq<string>, orig: seq<string>, first: int, last: int, ind: int, k: nat,
                   options: seq<string>, operands: seq<string>)
    requires Layout(a, orig, first, last, ind, options, operands) && ind + k <= |a|
    ensures Layout(a, orig, first, last, ind + k, options + orig[ind..][..k], operands)
    ensures k > 0 ==> a[ind + k - 1] == orig[ind + k - 1]
  {
    assert a[last..ind + k] == a[last..ind] + a[ind..][..k];
    assert a[ind + k..] == a[ind..][k..] == orig[ind..][k..] == orig[ind + k..];
    if k > 0 { assert a[ind + k - 1] == a[ind..][k - 1] == orig[ind..][k - 1]; }
  }

  /** With nothing skipped, every element before `ind` is an option, wherever `first` points. */
  lemma LayoutNoOperands(a: seq<string>, orig: seq<string>, first: int, ind: int,
                         options: seq<string>, operands: seq<string>)
    requires Layout(a, orig, first, first, ind, options, operands)
    ensures operands == [] && Layout(a, orig, ind, ind, ind, options, [])
  {
    assert a[1..first] + a[first..ind] == a[1..ind];
    assert a[ind..ind] == [];
  }

  /** All of the vector accounted for: the options come first, then the operands. */
  lemma LayoutFinal(a: seq<string>, orig: seq<string>, first: int, ind: int, options: seq<string>, operands: seq<string>)
    requires Layout(a, orig, first, ind, ind, options, operands)
    ensures a == orig[..1] + options + (operands + orig[ind..])
    ensures first == 1 + |options|
  {
    assert a == a[..1] + a[1..first] + a[first..ind] + a[ind..];
    assert a[1..first] + a[ind..ind] == a[1..first];
  }

  // ---------- exchange

  /** `b` is `a` with the runs of `len` elements at `p` and at `q` exchanged. */
  ghost predicate RunsSwapped<T>(a: seq<T>, b: seq<T>, p: nat, q: nat, len: nat)
    requires p + len <= q && q + len <= |a|
  {
    && |b| == |a|
    && forall k {:trigger b[k]} :: 0 <= k < |a| ==>
         b[k] == if p <= k < p + len then a[q + (k - p)]
                 else if q <= k < q + len then a[p + (k - q)]
                 else a[k]
  }

  /** `r` is `a` with [first, last) and [last, ind) exchanged, element by element. */
  ghost predicate IsRotation<T>(a: seq<T>, r: seq<T>, first: nat, last: nat, ind: nat)
    requires first <= last <= ind <= |a|
  {
    && |r| == |a|
    && (forall k :: 0 <= k < first || ind <= k < |a| ==> r[k] == a[k])
    && (forall k :: first <= k < first + (ind - last) ==> r[k] == a[k + (last - first)])
    && (forall k :: first + (ind - last) <= k < ind ==> r[k] == a[k - (ind - last)])
  }

  lemma RotatedIsRotation<T>(a: seq<T>, first: nat, last: nat, ind: nat)
    requires first <= last <= ind <= |a|
    ensures IsRotation(a, Rotated(a, first, last, ind), first, last, ind)
  {
  }

  lemma TrivialRotation<T>(a: seq<T>, r: seq<T>, first: nat, last: nat, ind: nat)
    requires first <= last <= ind <= |a| && IsRotation(a, r, first, last, ind)
    requires first == last || last == ind
    ensures r == a
  {
  }

  /** The inner loop of `exchange`: swaps two disjoint runs of `len` elements. */
  method SwapRuns(a: array<string>, p: nat, q: nat, len: nat)
    requires p + len <= q && q + len <= a.Length
    modifies a
    ensures RunsSwapped(old(a[..]), a[..], p, q, len)
  {
    var i := 0;
    while i < len
      invariant 0 <= i <= len
      invariant RunsSwapped(old(a[..]), a[..], p, q, i)
    {
      a[p + i], a[q + i] := a[q + i], a[p + i];
      i := i + 1;
    }
  }

  /** One round of `exchange` on [bottom, top) when its lower part is the shorter: that part has
      reached its place, and rotating what is left finishes the job. */
  lemma RoundBottomShort(a: seq<string>, b: seq<string>, r: seq<string>, bottom: nat, middle: nat, top: nat, top': nat)
    requires bottom <= middle <= top' <= top <= |a| && top - top' == middle - bottom
    requires RunsSwapped(a, b, bottom, top', middle - bottom)
    requires IsRotation(a, r, bottom, middle, top)
    ensures IsRotation(b, r, bottom, middle, top')
  {
  }

  /** The other round: the upper part is the shorter, or both are equally long. */
  lemma RoundTopShort(a: seq<string>, b: seq<string>, r: seq<string>, bottom: nat, bottom': nat, middle: nat, top: nat)
    requires bottom <= bottom' <= middle <= top <= |a| && bottom' - bottom == top - middle
    requires RunsSwapped(a, b, bottom, middle, top - middle)
    requires IsRotation(a, r, bottom, middle, top)
    ensures IsRotation(b, r, bottom', middle, top)
  {
  }

  /** The rotation of `exchange` on the array, by repeated swaps of the shorter segment. */
  method RotateInPlace(a: array<string>, first: nat, last: nat, ind: nat)
    requires first <= last <= ind <= a.Length
    modifies a
    ensures a[..] == Rotated(old(a[..]), first, last, ind)
  {
    hide Rotated, IsRotation, RunsSwapped;
    var bottom: nat, middle: nat, top: nat := first, last, ind;
    ghost var now := a[..];
    ghost var goal := Rotated(now, first, last, ind);
    RotatedIsRotation(now, first, last, ind);
    while top > middle && middle > bottom
      invariant bottom <= middle <= top <= a.Length
      invariant now == a[..] && IsRotation(now, goal, bottom, middle, top)
      decreases top - bottom
    {
      ghost var was, b, t := now, bottom, top;
      if top - middle > middle - bottom {
        var len := middle - bottom;
        SwapRuns(a, bottom, top - len, len);
        now := a[..];
        top := top - len;
        RoundBottomShort(was, now, goal, bottom, middle, t, top);
      } else {
        var len := top - middle;
        SwapRuns(a, bottom, middle, len);
        now := a[..];
        bottom := bottom + len;
        RoundTopShort(was, now, goal, b, bottom, middle, top);
      }
    }
    TrivialRotation(now, goal, bottom, middle, top);
  }

  // ---------- Long-option lookup

  /** The table scan of `_getopt_internal`: remembers the first abbreviation and whether there was
      another, and stops at an exact match. */
  method FindLong(table: seq<LongOption>, text: string) returns (r: LookupResult)
    ensures r == Lookup(table, text)
  {
    var found: Option<nat> := None;
    var exact, ambig := false, false;
    ghost var other := 0;
    for i := 0 to |table|
      invariant !exact
      invariant forall k :: 0 <= k < i ==> table[k].name != text
      invariant found.None? ==> !ambig && forall k :: 0 <= k < i ==> !(text <= table[k].name)
      invariant found.Some? ==> found.value < i && Abbreviates(table, text, found.value)
      invariant found.Some? && !ambig ==> forall k :: 0 <= k < i && text <= table[k].name ==> k == found.value
      invariant ambig ==> other != found.value && Abbreviates(table, text, other)
    {
      if text <= table[i].name {
        if |text| == |table[i].name| {
          found, exact := Some(i), true;
          assert FirstExact(table, text, i);
          break;
        } else if found.None? {
          found := Some(i);
        } else {
          ambig, other := true, i;
        }
      }
    }
    if ambig && !exact { return Ambiguous; }
    if found.Some? {
      assert !exact ==> OnlyMatch(table, text, found.value);
      return Found(found.value);
    }
    return NotFound;
  }
}

/**
 The search for the signature in the address PROM of a DEPCA card (netboot/depca.c).  The matcher
 falls back to at most one matched byte after a mismatch; this is enough for this signature only
 because it consists of the same four different bytes twice.
 */
module Depca {

  type byte = b: int | 0 <= b < 0x100

  const PROBE_LENGTH: nat := 32
  const SIG: seq<byte> := [0xFF, 0x00, 0x55, 0xAA, 0xFF, 0x00, 0x55, 0xAA]

  // ---------- What the matcher keeps track of

  /** The last `k` bytes of `s` are the first `k` bytes of the signature. */
  ghost predicate EndsWith(s: seq<byte>, k: nat) {
    k <= |s| && k <= |SIG| && s[|s| - k..] == SIG[..k]
  }

  /** No longer part of the signature is at the end of `s`. */
  ghost predicate Longest(s: seq<byte>, k: nat) {
    EndsWith(s, k) && forall m: nat :: k < m ==> !EndsWith(s, m)
  }

  /** Lines 682 to 685. */
  function Next(j: nat, data: byte): nat
    requires j < |SIG|
  {
    if data == SIG[j] then j + 1 else if data == SIG[0] then 1 else 0
  }

  lemma EndsWithStep(s: seq<byte>, data: byte, m: nat)
    requires m < |SIG|
    ensures EndsWith(s + [data], m + 1) <==> EndsWith(s, m) && SIG[m] == data
  {
    var t := s + [data];
    if m <= |s| {
      assert t[|t| - (m + 1)..] == s[|s| - m..] + [data];
      assert SIG[..m + 1] == SIG[..m] + [SIG[m]];
      if t[|t| - (m + 1)..] == SIG[..m + 1] {
        assert s[|s| - m..] == t[|t| - (m + 1)..][..m] == SIG[..m];
        assert t[|t| - (m + 1)..][m] == data;
      }
    }
  }

  /** Where a part of the signature repeats inside a longer one, both continue alike. */
  lemma SamePeriod(s: seq<byte>, j: nat, m: nat)
    requires 1 <= m < j < |SIG| && EndsWith(s, j) && EndsWith(s, m)
    ensures SIG[m] == SIG[j]
  {
    assert s[|s| - j..][j - m] == SIG[..j][j - m] == SIG[j - m];
    assert s[|s| - m..][0] == SIG[..m][0] == SIG[0];
    assert SIG[j - m] == SIG[0];
  }

  /** The simple fallback computes the longest match. */
  lemma FallbackIsEnough(s: seq<byte>, j: nat, data: byte)
    requires Longest(s, j) && j < |SIG|
    ensures Longest(s + [data], Next(j, data))
  {
    var k := Next(j, data);
    EndsWithStep(s, data, j);
    EndsWithStep(s, data, 0);
    assert EndsWith(s, 0) && EndsWith(s + [data], 0);
    forall m: nat | k < m ensures !EndsWith(s + [data], m) {
      if m <= |SIG| {
        EndsWithStep(s, data, m - 1);
        if m - 1 < j && 1 <= m - 1 && EndsWith(s, m - 1) {
          SamePeriod(s, j, m - 1);
        }
      }
    }
  }

  /** The signature at position `p` of a stream. */
  ghost predicate OccursAt(s: seq<byte>, p: nat) {
    p + |SIG| <= |s| && s[p..p + |SIG|] == SIG
  }

  // ---------- The PROM

  /** What `n` reads return when the address counter stands at `c`; the PROM is read cyclically. */
  function Reads(bytes: seq<byte>, c: nat, n: nat): (s: seq<byte>)
    requires |bytes| == PROBE_LENGTH
    ensures |s| == n
  {
    seq(n, i requires 0 <= i < n => bytes[(c + i) % PROBE_LENGTH])
  }

  /** The signature begins at address `p`, possibly running over the end. */
  ghost predicate HasSignatureAt(bytes: seq<byte>, p: nat)
    requires |bytes| == PROBE_LENGTH
  {
    p < PROBE_LENGTH && Reads(bytes, p, |SIG|) == SIG
  }

  /** The signature at position `q` of the reads is the signature at an address of the PROM. */
  lemma SeenIffThere(bytes: seq<byte>, c: nat, n: nat, q: nat)
    requires |bytes| == PROBE_LENGTH && q + |SIG| <= n
    ensures OccursAt(Reads(bytes, c, n), q) <==> HasSignatureAt(bytes, (c + q) % PROBE_LENGTH)
  {
    var s, t := Reads(bytes, c, n), Reads(bytes, (c + q) % PROBE_LENGTH, |SIG|);
    forall k | 0 <= k < |SIG| ensures s[q..q + |SIG|][k] == t[k] {
      assert (c + (q + k)) % PROBE_LENGTH == ((c + q) % PROBE_LENGTH + k) % PROBE_LENGTH;
    }
    assert s[q..q + |SIG|] == t;
  }

  /** 39 reads from any starting point see the signature if it is there at all. */
  lemma ThereIffSeen(bytes: seq<byte>, c: nat)
    requires |bytes| == PROBE_LENGTH
    ensures var s := Reads(bytes, c, PROBE_LENGTH + |SIG| - 1);
      (exists p :: HasSignatureAt(bytes, p)) <==> (exists q :: OccursAt(s, q))
  {
    hide Reads, OccursAt;
    var n := PROBE_LENGTH + |SIG| - 1;
    var s := Reads(bytes, c, n);
    if p: nat :| HasSignatureAt(bytes, p) {
      var q := WhenReached(c, p);
      SeenIffThere(bytes, c, n, q);
      assert OccursAt(s, q);
    }
    if q :| OccursAt(s, q) {
      NothingRead(s);
      SeenIffThere(bytes, c, n, q);
      assert HasSignatureAt(bytes, (c + q) % PROBE_LENGTH);
    }
  }

  /** Every address is reached within one turn of the counter. */
  lemma WhenReached(c: nat, p: nat) returns (q: nat)
    requires p < PROBE_LENGTH
    ensures q < PROBE_LENGTH && (c + q) % PROBE_LENGTH == p
  {
    var k, d := c / PROBE_LENGTH, c % PROBE_LENGTH;
    q := if p >= d then p - d else p - d + PROBE_LENGTH;
    assert c + q == PROBE_LENGTH * (if p >= d then k else k + 1) + p;
  }

  lemma NothingRead(s: seq<byte>)
    ensures Longest(s[..0], 0)
    ensures forall p: nat :: OccursAt(s, p) ==> p + |SIG| <= |s|
  {
  }

  class Prom {
    const bytes: seq<byte>
    var counter: nat

    constructor (bytes: seq<byte>, counter: nat)
      requires |bytes| == PROBE_LENGTH
      ensures this.bytes == bytes && this.counter == counter
    {
      this.bytes, this.counter := bytes, counter;
    }

    /** `inb(DEPCA_PROM)`. */
    method Inb() returns (data: byte)
      requires |bytes| == PROBE_LENGTH
      modifies this
      ensures data == bytes[old(counter) % PROBE_LENGTH] && counter == old(counter) + 1
    {
      data := bytes[counter % PROBE_LENGTH];
      counter := counter + 1;
    }

    /** The signature search of `depca_probe1`.  It succeeds exactly when the signature occurs among
        the bytes of `PROBE_LENGTH` + 7 reads, and stops right behind the first occurrence. */
    method Search() returns (found: bool)
      requires |bytes| == PROBE_LENGTH
      modifies this
      ensures var s, n := Reads(bytes, old(counter), PROBE_LENGTH + |SIG| - 1), counter - old(counter);
        && 0 <= n <= |s|
        && (found ==> n >= |SIG| && OccursAt(s, n - |SIG|))
        && (forall p: nat :: OccursAt(s, p) ==> found && n - |SIG| <= p)
    {
      hide Longest, EndsWith, OccursAt;
      ghost var c := counter;
      ghost var s := Reads(bytes, counter, PROBE_LENGTH + |SIG| - 1);
      var i, j := 0, 0;
      NothingRead(s);
      while j < |SIG| && i < PROBE_LENGTH + |SIG| - 1
        invariant 0 <= i <= |s| && counter == c + i
        invariant j <= |SIG| && j <= i && Longest(s[..i], j)
        invariant forall p: nat :: p + |SIG| < i ==> !OccursAt(s, p)
        decreases |s| - i
      {
        if i >= |SIG| { NotYet(s, i, j); }
        var data := Inb();
        assert data == s[i];
        assert s[..i + 1] == s[..i] + [s[i]];
        FallbackIsEnough(s[..i], j, data);
        if data == SIG[j] {
          j := j + 1;
        } else {
          j := if data == SIG[0] then 1 else 0;
        }
        i := i + 1;
      }
      if i >= |SIG| { NotYet(s, i, j); }
      found := j == |SIG|;
    }

    /** From whatever address the counter starts, the search finds the signature exactly if the PROM
        has it, within 39 reads, and leaves the counter at the byte behind it: the start of the
        station address. */
    method FindAddress() returns (found: bool)
      requires |bytes| == PROBE_LENGTH
      modifies this
      ensures found <==> exists p :: HasSignatureAt(bytes, p)
      ensures found ==> counter >= |SIG| && HasSignatureAt(bytes, (counter - |SIG|) % PROBE_LENGTH)
      ensures counter <= old(counter) + 39
    {
      hide HasSignatureAt, Reads, OccursAt;
      ghost var c := counter;
      ThereIffSeen(bytes, c);
      found := Search();
      if found {
        SeenIffThere(bytes, c, PROBE_LENGTH + |SIG| - 1, counter - c - |SIG|);
      }
    }
  }

  /** The signature ends at `i` exactly when all of it has been matched. */
  lemma NotYet(s: seq<byte>, i: nat, j: nat)
    requires |SIG| <= i <= |s| && j <= |SIG| && Longest(s[..i], j)
    ensures j == |SIG| <==> OccursAt(s, i - |SIG|)
  {
    assert s[..i][i - |SIG|..] == s[i - |SIG|..i] && SIG[..|SIG|] == SIG;
    assert EndsWith(s[..i], |SIG|) <==> OccursAt(s, i - |SIG|);
  }
}

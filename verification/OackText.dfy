/**
 The text of an OACK (RFC 2347: option names and values, each ended by a NUL) and the walk over it in
 `buf_fill` of netboot/fsys_tftp.c.  On the texts of honest servers the walk does what `Negotiate` does
 with the list of options.
 */
module OackText {
  import opened Numerals
  import opened Printers
  import opened TftpProtocol

  // ---------- The walk, on what is left of the text

  /** The rest of a text; behind the end of the packet buffer there is nothing. */
  function Drop(s: string, k: nat): string {
    if k <= |s| then s[k..] else ""
  }

  /** `grub_strcmp` finds `name` here. */
  predicate Names(name: string, s: string) {
    name <= s && (|s| == |name| || s[|name|] == '\0')
  }

  /** `getdec`: the value and how many characters it takes. */
  function Number(s: string): (r: (int, nat))
    ensures r.1 <= |s|
  {
    var k := DigitCount(s);
    (if k == 0 then -1 else Wrapped(Value(s[..k])), k)
  }

  /** What is skipped behind a value: the rest up to a NUL, and that; `n` is how much of the OACK is
      left, which may be less than nothing. */
  function SkipRest(s: string, n: int): (r: (string, int))
    ensures |r.0| <= |s|
    decreases |s|
  {
    if n <= 0 then (s, n)
    else if s == "" || s[0] == '\0' then (Drop(s, 1), n - 1)
    else SkipRest(s[1..], n - 1)
  }

  /** Lines 131 to 183: the block size, the file size, and whether the OACK is accepted. */
  function Walk(s: string, n: int, packetsize: int, filemax: int): (int, int, bool)
    decreases |s|
  {
    if s == "" || s[0] == '\0' || n <= 0 then (packetsize, filemax, n >= 0)
    else if Names("blksize", s) then
      var t := Drop(s, 8);
      var (v, k) := Number(t);
      if v < DEFAULT_SIZE then (v, filemax, false)
      else
        var (u, m) := SkipRest(t[k..], n - 8 - k);
        Walk(u, m, v, filemax)
    else if Names("tsize", s) then
      var t := Drop(s, 6);
      var (v, k) := Number(t);
      if v < 0 then (packetsize, -1, false)
      else
        var (u, m) := SkipRest(t[k..], n - 6 - k);
        Walk(u, m, packetsize, v)
    else (packetsize, filemax, false)
  }

  // ---------- The loop

  /** `getdec` at `p`, which may be behind the end of the buffer. */
  method GetNumber(data: string, p: nat) returns (v: int, q: nat)
    ensures (v, q - p) == Number(Drop(data, p)) && q >= p
    ensures Drop(data, q) == Drop(data, p)[q - p..]
  {
    hide Value, AllDigits, DigitCount, Wrapped;
    if p <= |data| {
      v, q := GetDec(data, p);
      assert data[q..] == data[p..][q - p..];
    } else {
      NoDigits("");
      v, q := -1, p;
    }
  }

  method SkipTo(data: string, from: nat, e: nat) returns (p: nat)
    ensures p >= from && (Drop(data, p), e - p) == SkipRest(Drop(data, from), e - from)
  {
    p := from;
    while p < e && p < |data| && data[p] != '\0'
      invariant p >= from
      invariant SkipRest(Drop(data, p), e - p) == SkipRest(Drop(data, from), e - from)
      decreases e - p
    {
      assert Drop(data, p)[1..] == Drop(data, p + 1);
      p := p + 1;
    }
    if p < e {
      assert Drop(Drop(data, p), 1) == Drop(data, p + 1);
      p := p + 1;
    }
  }

  /** `data` is the packet buffer from the first option on, and `len` the length of the options. */
  method TakeText(data: string, len: nat, packetsize0: int, filemax0: int) returns (packetsize: int, filemax: int, ok: bool)
    ensures (packetsize, filemax, ok) == Walk(data, len, packetsize0, filemax0)
  {
    hide Number, SkipRest, Names, Walk, Drop;
    packetsize, filemax := packetsize0, filemax0;
    var p, e := 0, len;
    AllOfIt(data);
    while p < |data| && data[p] != '\0' && p < e
      invariant Walk(Drop(data, p), e - p, packetsize, filemax) == Walk(data, len, packetsize0, filemax0)
      decreases |data| - p
    {
      var q, v;
      if Names("blksize", data[p..]) {
        v, q := GetNumber(data, p + 8);
        WalkName(data, p, e, q, v, packetsize, filemax);
        packetsize := v;
        if packetsize < DEFAULT_SIZE { return packetsize, filemax, false; }
      } else if Names("tsize", data[p..]) {
        v, q := GetNumber(data, p + 6);
        WalkName(data, p, e, q, v, packetsize, filemax);
        filemax := v;
        if filemax < 0 { return packetsize, -1, false; }
      } else {
        WalkEnds(data, p, e, packetsize, filemax);
        return packetsize, filemax, false;
      }
      p := SkipTo(data, q, e);
    }
    WalkEnds(data, p, e, packetsize, filemax);
    ok := p <= e;
  }

  lemma AllOfIt(data: string)
    ensures Drop(data, 0) == data
  {
  }

  /** One option of the walk at `p`, when its value `v` ends at `q`. */
  lemma WalkName(data: string, p: nat, e: nat, q: nat, v: int, packetsize: int, filemax: int)
    requires p < |data| && data[p] != '\0' && p < e
    requires var at := if Names("blksize", data[p..]) then p + 8 else p + 6;
      q >= at && (v, q - at) == Number(Drop(data, at)) && Drop(data, q) == Drop(data, at)[q - at..]
    ensures var (u, m) := SkipRest(Drop(data, q), e - q);
      if Names("blksize", data[p..]) then
        Walk(Drop(data, p), e - p, packetsize, filemax) == if v < DEFAULT_SIZE then (v, filemax, false) else Walk(u, m, v, filemax)
      else if Names("tsize", data[p..]) then
        Walk(Drop(data, p), e - p, packetsize, filemax) == if v < 0 then (packetsize, -1, false) else Walk(u, m, packetsize, v)
      else true
  {
    hide Number, SkipRest, Names, Walk, Drop;
    var s := Drop(data, p);
    DropTwice(data, p);
    WalkOnce(s, e - p, packetsize, filemax);
  }

  lemma DropTwice(data: string, p: nat)
    requires p < |data|
    ensures Drop(data, p) == data[p..] && Drop(Drop(data, p), 8) == Drop(data, p + 8) && Drop(Drop(data, p), 6) == Drop(data, p + 6)
  {
    var s := Drop(data, p);
    assert Drop(s, 8) == Drop(data, p + 8) && Drop(s, 6) == Drop(data, p + 6);
  }

  lemma WalkOnce(s: string, n: int, packetsize: int, filemax: int)
    requires s != "" && s[0] != '\0' && n > 0
    ensures var t, t' := Drop(s, 8), Drop(s, 6);
      if Names("blksize", s) then
        var (v, k) := Number(t);
        var (u, m) := SkipRest(t[k..], n - 8 - k);
        Walk(s, n, packetsize, filemax) == if v < DEFAULT_SIZE then (v, filemax, false) else Walk(u, m, v, filemax)
      else if Names("tsize", s) then
        var (v, k) := Number(t');
        var (u, m) := SkipRest(t'[k..], n - 6 - k);
        Walk(s, n, packetsize, filemax) == if v < 0 then (packetsize, -1, false) else Walk(u, m, packetsize, v)
      else true
  {
    hide Number, SkipRest, Names;
  }

  lemma WalkEnds(data: string, p: nat, e: nat, packetsize: int, filemax: int)
    ensures p >= |data| || data[p] == '\0' || p >= e ==>
      Walk(Drop(data, p), e - p, packetsize, filemax) == (packetsize, filemax, p <= e)
    ensures p < |data| && data[p] != '\0' && p < e && !Names("blksize", data[p..]) && !Names("tsize", data[p..]) ==>
      Walk(Drop(data, p), e - p, packetsize, filemax) == (packetsize, filemax, false)
  {
    hide Number, SkipRest, Names;
  }

  // ---------- The text of a list of options

  predicate Writable(o: OackOption) {
    !o.Unknown? && IsInt(o.n) && o.n >= 0
  }

  function OptionText(o: OackOption): string
    requires Writable(o)
  {
    (if o.BlkSize? then "blksize\0" else "tsize\0") + (Decimal(o.n) + "\0")
  }

  function Text(options: seq<OackOption>): string
    requires forall i :: 0 <= i < |options| ==> Writable(options[i])
  {
    if options == [] then "" else OptionText(options[0]) + Text(options[1..])
  }

  /** The number in front of a NUL is read back, and the NUL is skipped. */
  lemma NumberAndNul(n: nat, rest: string, len: int)
    requires IsInt(n) && len >= |Decimal(n)| + 1
    ensures var t := Decimal(n) + ("\0" + rest);
      && Number(t) == (n, |Decimal(n)|)
      && SkipRest(t[|Decimal(n)|..], len - |Decimal(n)|) == (rest, len - |Decimal(n)| - 1)
  {
    hide Value, AllDigits, Decimal, Numeral;
    var after := "\0" + rest;
    GetDecReadsDecimal(n, after);
    DigitCountIs(Decimal(n), after) by { ValueOfDecimal(n); }
    assert after[0] == '\0' && after[1..] == rest;
  }

  /** One option at the front. */
  lemma WalkOption(o: OackOption, rest: string, len: int, packetsize: int, filemax: int)
    requires Writable(o) && len >= |OptionText(o)|
    ensures Walk(OptionText(o) + rest, len, packetsize, filemax) ==
      match o
      case BlkSize(n) => if n < DEFAULT_SIZE then (n, filemax, false) else Walk(rest, len - |OptionText(o)|, n, filemax)
      case TSize(n) => Walk(rest, len - |OptionText(o)|, packetsize, n)
      case Unknown => (packetsize, filemax, false)
  {
    hide Number, SkipRest, Decimal;
    var s := OptionText(o) + rest;
    var t := Decimal(o.n) + ("\0" + rest);
    if o.BlkSize? {
      assert s == "blksize\0" + t && s[..7] == "blksize" && s[7] == '\0' && Drop(s, 8) == t;
      NumberAndNul(o.n, rest, len - 8);
    } else {
      assert s == "tsize\0" + t && s[..5] == "tsize" && s[5] == '\0' && Drop(s, 6) == t;
      assert s[0] == 't';
      NumberAndNul(o.n, rest, len - 6);
    }
  }

  /** The walk over the text of a list does what the list says, whatever lies behind the text. */
  lemma {:induction false} WalkIsNegotiation(options: seq<OackOption>, after: string, packetsize: int, filemax: int)
    requires forall i :: 0 <= i < |options| ==> Writable(options[i])
    ensures Walk(Text(options) + after, |Text(options)|, packetsize, filemax) == Negotiate(packetsize, filemax, options)
    decreases |options|
  {
    hide OptionText, Walk;
    if options == [] {
      EndOfText(after, packetsize, filemax);
      assert "" + after == after;
    } else {
      var o, rest := options[0], Text(options[1..]);
      assert Text(options) + after == OptionText(o) + (rest + after);
      WalkOption(o, rest + after, |Text(options)|, packetsize, filemax);
      match o
      case BlkSize(n) => WalkIsNegotiation(options[1..], after, n, filemax);
      case TSize(n) => WalkIsNegotiation(options[1..], after, packetsize, n);
    }
  }

  lemma EndOfText(after: string, packetsize: int, filemax: int)
    ensures Walk(after, 0, packetsize, filemax) == (packetsize, filemax, true)
  {
  }

  /** A value that runs on behind the end of the OACK is refused. */
  lemma RunningOnIsRefused()
    ensures Walk("blksize\0" + "1432", 8, DEFAULT_SIZE, -1) == (1432, -1, false)
  {
    var t := Decimal(1432) + "";
    DecimalText();
    GetDecReadsDecimal(1432, "");
    assert t == "1432" && Number("1432") == (1432, 4) by { DigitCountIs("1432", ""); ValueOfDecimal(1432); }
    var s := "blksize\0" + "1432";
    assert s[..7] == "blksize" && Drop(s, 8) == "1432" && "1432"[4..] == "";
  }

  lemma DecimalText()
    ensures Decimal(1432) == "1432"
  {
    assert Numeral(1, 10) == "1" && Numeral(14, 10) == "14" && Numeral(143, 10) == "143" && Numeral(1432, 10) == "1432";
  }

  // ---------- Refusals

  /** An option that is neither of the two. */
  lemma UnknownRefused(name: string, rest: string, n: int, packetsize: int, filemax: int)
    requires name != "" && (forall i :: 0 <= i < |name| ==> name[i] != '\0') && name != "blksize" && name != "tsize" && n > 0
    ensures Walk(name + ("\0" + rest), n, packetsize, filemax) == (packetsize, filemax, false)
  {
    NamedOnly("blksize", name, rest);
    NamedOnly("tsize", name, rest);
    assert (name + ("\0" + rest))[0] == name[0];
  }

  lemma NamedOnly(wanted: string, name: string, rest: string)
    requires forall i :: 0 <= i < |name| ==> name[i] != '\0'
    requires forall i :: 0 <= i < |wanted| ==> wanted[i] != '\0'
    ensures Names(wanted, name + ("\0" + rest)) ==> wanted == name
  {
    var s := name + ("\0" + rest);
    assert s[|name|] == '\0';
    if Names(wanted, s) {
      assert forall i :: 0 <= i < |wanted| ==> s[i] == wanted[i];
      assert forall i :: 0 <= i < |name| ==> s[i] == name[i];
      assert |wanted| == |name|;
    }
  }

  /** An option without a number. */
  lemma NoNumberRefused(rest: string, n: int, packetsize: int, filemax: int)
    requires n > 0 && (rest == "" || !IsDigit(rest[0]))
    ensures !Walk("blksize\0" + rest, n, packetsize, filemax).2
    ensures Walk("tsize\0" + rest, n, packetsize, filemax) == (packetsize, -1, false)
  {
    var s, t := "blksize\0" + rest, "tsize\0" + rest;
    NoDigits(rest);
    assert s[..7] == "blksize" && s[7] == '\0' && Drop(s, 8) == rest;
    assert t[..5] == "tsize" && t[5] == '\0' && Drop(t, 6) == rest && t[0] == 't';
  }

  /** A text that ends at a NUL, or where the OACK ends, is accepted as it is. */
  lemma EndsAtNul(rest: string, n: int, packetsize: int, filemax: int)
    requires n >= 0
    ensures Walk("\0" + rest, n, packetsize, filemax) == Walk(rest, 0, packetsize, filemax) == (packetsize, filemax, true)
  {
  }
}

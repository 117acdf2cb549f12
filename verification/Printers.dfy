/**
 The number printers and parsers of netboot/misc.c (`%d` and `%@` of its printf, `getdec`,
 `inet_aton`) and `itoa` of docs/kernel.c.  Integers have 32 bits.
 */
module Printers {
  import opened Common
  import opened Numerals

  const INT_MIN: int := -0x8000_0000

  predicate IsInt(i: int) {
    INT_MIN <= i < 0x8000_0000
  }

  /** The value of an `int` computation that overflows. */
  function Wrapped(x: int): (i: int)
    ensures IsInt(i)
    ensures IsInt(x) ==> i == x
  {
    (x + 0x8000_0000) % 0x1_0000_0000 - 0x8000_0000
  }

  lemma WrappedTwice(a: int, d: int)
    ensures Wrapped(10 * Wrapped(a) + d) == Wrapped(10 * a + d)
  {
    var k := (a + 0x8000_0000) / 0x1_0000_0000;
    assert Wrapped(a) == a - k * 0x1_0000_0000;
    assert 10 * Wrapped(a) + d + 0x8000_0000 == 10 * a + d + 0x8000_0000 - (10 * k) * 0x1_0000_0000;
  }

  // ---------- The digit loops

  /** Turns a[lo..hi) around. */
  method ReverseInPlace(a: array<char>, lo: nat, hi: nat)
    requires lo <= hi <= a.Length
    modifies a
    ensures a[..lo] == old(a[..lo]) && a[lo..hi] == Reverse(old(a[lo..hi])) && a[hi..] == old(a[hi..])
  {
    ghost var was := a[..];
    var p, r := lo, hi - 1;
    while p < r
      invariant lo <= p <= r + 2 && p + r == lo + hi - 1
      invariant forall k :: lo <= k < p || r < k < hi ==> a[k] == was[lo + hi - 1 - k]
      invariant forall k :: 0 <= k < lo || p <= k <= r || hi <= k < a.Length ==> a[k] == was[k]
    {
      a[p], a[r] := a[r], a[p];
      p, r := p + 1, r - 1;
    }
    TurnedAround(was, a[..], lo, hi);
  }

  lemma TurnedAround(was: string, now: string, lo: nat, hi: nat)
    requires lo <= hi <= |was| == |now|
    requires forall k :: lo <= k < hi ==> now[k] == was[lo + hi - 1 - k]
    requires forall k :: 0 <= k < lo || hi <= k < |was| ==> now[k] == was[k]
    ensures now[..lo] == was[..lo] && now[lo..hi] == Reverse(was[lo..hi]) && now[hi..] == was[hi..]
  {
  }

  /** C division and remainder truncate towards zero. */
  function Quotient(i: int): int {
    if i < 0 then -((-i) / 10) else i / 10
  }

  function Remainder(i: int): (r: int)
    ensures -10 < r < 10
  {
    if i < 0 then -((-i) % 10) else i % 10
  }

  /** What the loop of `%d` writes for `i`, least significant digit first. */
  function Produced(i: int): (s: string)
    ensures s != ""
    decreases if i < 0 then -i else i
  {
    [('0' as int + Remainder(i)) as char] + (if Quotient(i) == 0 then "" else Produced(Quotient(i)))
  }

  lemma {:induction false} ProducedDigits(n: nat)
    ensures Produced(n) == Backwards(n, 10)
    decreases n
  {
    if n >= 10 { ProducedDigits(n / 10); }
  }

  function Pow10(k: nat): nat {
    if k == 0 then 1 else 10 * Pow10(k - 1)
  }

  lemma {:induction false} ProducedLength(i: int, k: nat)
    requires k >= 1 && (if i < 0 then -i else i) < Pow10(k)
    ensures |Produced(i)| <= k
    decreases k
  {
    if Quotient(i) != 0 {
      ProducedLength(Quotient(i), k - 1);
    }
  }

  /** The text of `%d`.  The least integer has no positive counterpart: its digits are taken below '0'. */
  function Shown(arg: int): string {
    if arg == INT_MIN then "-./,),(-*,(" else if arg < 0 then "-" + Decimal(-arg) else Decimal(arg)
  }

  lemma LeastIntegerBackwards()
    ensures Produced(INT_MIN) == "(,*-(,),/."
  {
    FirstHalf();
    hide Produced;
    ProducedOnce(-214748);
    ProducedOnce(-2147483);
    ProducedOnce(-21474836);
    ProducedOnce(-214748364);
    ProducedOnce(INT_MIN);
  }

  lemma ProducedOnce(i: int)
    ensures Produced(i) == [('0' as int + Remainder(i)) as char] + (if Quotient(i) == 0 then "" else Produced(Quotient(i)))
  {
  }

  lemma FirstHalf()
    ensures Produced(-21474) == ",),/."
  {
    assert Produced(-2) == ".";
    assert Produced(-21) == "/.";
    assert Produced(-214) == ",/.";
    assert Produced(-2147) == "),/." by { assert Quotient(-2147) == -214; }
    assert Produced(-21474) == ",),/." by { assert Quotient(-21474) == -2147; }
  }

  /** The loops of `%d`: produces the digits of `n` at `p` and turns them around. */
  method PutDigits(tmp: array<char>, p: nat, n: int) returns (q: nat)
    requires IsInt(n) && p + |Produced(n)| <= tmp.Length
    modifies tmp
    ensures q == p + |Produced(n)|
    ensures tmp[..p] == old(tmp[..p]) && tmp[p..q] == Reverse(Produced(n))
  {
    hide Produced, Reverse, Remainder;
    ghost var before := tmp[..p];
    ghost var out := "";
    var i := n;
    q := p;
    while true
      invariant out + Produced(i) == Produced(n) && |out| < |Produced(n)|
      invariant p <= q == p + |out| && tmp[..p] == before && tmp[p..q] == out
      decreases if i < 0 then -i else i
    {
      ProducedStep(out, i);
      tmp[q] := ('0' as int + Remainder(i)) as char;
      assert tmp[p..q + 1] == tmp[p..q] + [tmp[q]];
      out := out + [tmp[q]];
      q := q + 1;
      i := Quotient(i);
      if i == 0 { break; }
    }
    ReverseInPlace(tmp, p, q);
  }

  lemma ProducedStep(out: string, i: int)
    ensures var next := out + [('0' as int + Remainder(i)) as char];
      out + Produced(i) == next + (if Quotient(i) == 0 then "" else Produced(Quotient(i)))
    ensures |out + Produced(i)| >= |out| + 1
  {
  }

  /** `%d`. */
  method PutDecimal(tmp: array<char>, start: nat, arg: int) returns (q: nat)
    requires IsInt(arg) && start + |Shown(arg)| <= tmp.Length
    modifies tmp
    ensures q == start + |Shown(arg)|
    ensures tmp[..start] == old(tmp[..start]) && tmp[start..q] == Shown(arg)
  {
    ShownIs(arg, if arg < 0 then Wrapped(-arg) else arg);
    hide Shown, Produced, Reverse;
    ghost var before := tmp[..start];
    var i := arg;
    q := start;
    if i < 0 {
      tmp[q] := '-';
      q := q + 1;
      i := Wrapped(-i);
    }
    ghost var p, sign := q, tmp[start..q];
    assert sign == if arg < 0 then "-" else "";
    q := PutDigits(tmp, q, i);
    assert tmp[..start] == tmp[..p][..start] == before;
    assert tmp[start..p] == tmp[..p][start..] == sign;
    assert tmp[start..q] == tmp[start..p] + tmp[p..q];
  }

  /** The item fits into the 20 characters that the printf has for it. */
  lemma ShownFits(arg: int)
    requires IsInt(arg)
    ensures |Shown(arg)| <= 11
  {
    var n := if arg < 0 then Wrapped(-arg) else arg;
    ShownIs(arg, n);
    assert Pow10(10) == 10_000_000_000 by { assert Pow10(5) == 100_000; }
    ProducedLength(n, 10);
  }

  lemma ShownIs(arg: int, n: int)
    requires IsInt(arg) && n == if arg < 0 then Wrapped(-arg) else arg
    ensures Shown(arg) == (if arg < 0 then "-" else "") + Reverse(Produced(n))
  {
    hide Produced, Numeral, Reverse, Backwards;
    if arg == INT_MIN {
      LeastIntegerBackwards();
      LeastIntegerForwards();
    } else {
      ProducedDigits(n);
      ReverseBackwards(n, 10);
    }
  }

  lemma LeastIntegerForwards()
    ensures Reverse("(,*-(,),/.") == "./,),(-*,("
  {
  }

  /** `%d` prints the numeral of its argument exactly if that is not the least integer. */
  lemma DecimalIsRightIff(arg: int)
    requires IsInt(arg)
    ensures Shown(arg) == (if arg < 0 then "-" + Decimal(-arg) else Decimal(arg)) <==> arg != INT_MIN
  {
    if arg == INT_MIN {
      ValueOfDecimal(0x8000_0000);
      assert ("-" + Decimal(0x8000_0000))[1] == Decimal(0x8000_0000)[0];
    }
  }

  /** The loops of `itoa`. */
  method PutUnsigned(buf: array<char>, start: nat, n: nat, divisor: nat) returns (p: nat)
    requires divisor in {10, 16} && start + |Backwards(n, divisor)| < buf.Length
    modifies buf
    ensures p == start + |Backwards(n, divisor)| && buf[p] == '\0'
    ensures buf[..start] == old(buf[..start]) && buf[start..p] == Numeral(n, divisor)
  {
    hide Numeral, Reverse, Backwards;
    ghost var before := buf[..start];
    ghost var out := "";
    var ud: nat := n;
    p := start;
    while true
      invariant out + Backwards(ud, divisor) == Backwards(n, divisor) && |out| < |Backwards(n, divisor)|
      invariant start <= p == start + |out| && buf[..start] == before && buf[start..p] == out
      decreases ud
    {
      BackwardsStep(out, ud, divisor);
      var remainder := ud % divisor;
      buf[p] := if remainder < 10 then ('0' as int + remainder) as char else ('a' as int + remainder - 10) as char;
      assert buf[start..p + 1] == buf[start..p] + [buf[p]];
      out := out + [buf[p]];
      p := p + 1;
      ud := ud / divisor;
      if ud == 0 { break; }
    }
    buf[p] := '\0';
    assert buf[start..p] == out && buf[p..][0] == '\0';
    ReverseInPlace(buf, start, p);
    ReverseBackwards(n, divisor);
    assert buf[p] == buf[p..][0];
  }

  /** `itoa` of docs/kernel.c works on the unsigned value and is right for every `int`. */
  method ItoA(buf: array<char>, hex: bool, d: int) returns (end: nat)
    requires IsInt(d) && buf.Length >= 12
    modifies buf
    ensures end < buf.Length && buf[end] == '\0'
    ensures buf[..end] == if hex then Numeral(d % 0x1_0000_0000, 16) else if d < 0 then "-" + Decimal(-d) else Decimal(d)
  {
    hide Numeral, Backwards;
    var start := 0;
    var ud := d % 0x1_0000_0000;
    var divisor := if hex then 16 else 10;
    if !hex && d < 0 {
      buf[0] := '-';
      start := 1;
      ud := Wrapped(-d) % 0x1_0000_0000;
    }
    ghost var sign := buf[..start];
    assert sign == if !hex && d < 0 then "-" else "";
    BackwardsIsShort(ud, divisor);
    end := PutUnsigned(buf, start, ud, divisor);
    assert buf[..end] == buf[..start] + buf[start..end];
  }

  lemma BackwardsStep(out: string, n: nat, radix: nat)
    requires radix in {10, 16}
    ensures out + Backwards(n, radix)
         == (out + [DigitChar(n % radix)]) + (if n / radix == 0 then "" else Backwards(n / radix, radix))
    ensures n / radix == 0 <==> n < radix
    ensures n >= radix ==> n / radix < n
  {
    LastDigit(n, radix);
    var rest := if n < radix then "" else Backwards(n / radix, radix);
    assert out + ([DigitChar(n % radix)] + rest) == (out + [DigitChar(n % radix)]) + rest;
  }

  lemma BackwardsIsShort(n: nat, radix: nat)
    requires radix in {10, 16} && n < 0x1_0000_0000
    ensures |Backwards(n, radix)| <= 10
  {
    assert Pow10(10) == 10_000_000_000 by { assert Pow10(5) == 100_000; }
    BackwardsLength(n, radix, 10);
  }

  lemma {:induction false} BackwardsLength(n: nat, radix: nat, k: nat)
    requires 10 <= radix <= 16 && k >= 1 && n < Pow10(k)
    ensures |Backwards(n, radix)| <= k
    decreases k
  {
    if n >= radix {
      assert n / radix <= n / 10;
      BackwardsLength(n / radix, radix, k - 1);
    }
  }

  // ---------- getdec and inet_aton

  /** How many digits a text begins with. */
  function DigitCount(s: string): (n: nat)
    ensures n <= |s| && AllDigits(s[..n])
    ensures n < |s| ==> !IsDigit(s[n])
  {
    if s != "" && IsDigit(s[0]) then 1 + DigitCount(s[1..]) else 0
  }

  lemma {:induction false} DigitCountIs(digits: string, after: string)
    requires AllDigits(digits) && (after == "" || !IsDigit(after[0]))
    ensures DigitCount(digits + after) == |digits| && (digits + after)[..|digits|] == digits && (digits + after)[|digits|..] == after
  {
    if digits == "" {
      assert digits + after == after;
    } else {
      assert (digits + after)[1..] == digits[1..] + after;
      DigitCountIs(digits[1..], after);
    }
  }

  /** `getdec`: -1 if there is no digit; otherwise the value of all the digits, in an `int`. */
  method GetDec(s: string, ptr: nat) returns (ret: int, next: nat)
    requires ptr <= |s|
    ensures next == ptr + DigitCount(s[ptr..])
    ensures ret == if next == ptr then -1 else Wrapped(Value(s[ptr..][..next - ptr]))
  {
    hide Value, AllDigits, DigitCount, Wrapped;
    ghost var digits := "";
    var p := ptr;
    ret := 0;
    NoDigits(s[ptr..]);
    if p == |s| || s[p] < '0' || s[p] > '9' { return -1, ptr; }
    while p < |s| && '0' <= s[p] <= '9'
      invariant ptr <= p == ptr + |digits| <= |s| && s[ptr..p] == digits && AllDigits(digits)
      invariant p == ptr ==> IsDigit(s[ptr])
      invariant ret == Wrapped(Value(digits))
    {
      OneMoreDigit(digits, s[p]);
      WrappedTwice(Value(digits), DigitValue(s[p]));
      ret := Wrapped(ret * 10 + (s[p] as int - '0' as int));
      digits := digits + [s[p]];
      assert s[ptr..p + 1] == s[ptr..p] + [s[p]];
      p := p + 1;
    }
    assert s[ptr..] == digits + s[p..];
    DigitCountIs(digits, s[p..]);
    return ret, p;
  }

  lemma NoDigits(s: string)
    ensures AllDigits("") && Value("") == 0 && Wrapped(0) == 0
    ensures s == "" || !IsDigit(s[0]) ==> DigitCount(s) == 0
  {
  }

  lemma OneMoreDigit(digits: string, c: char)
    requires AllDigits(digits) && IsDigit(c)
    ensures AllDigits(digits + [c]) && Value(digits + [c]) == 10 * Value(digits) + DigitValue(c)
  {
    var more := digits + [c];
    assert more[..|more| - 1] == digits;
  }

  /** `getdec` recovers every non-negative `int` from its `%d` text. */
  lemma GetDecReadsDecimal(n: nat, after: string)
    requires IsInt(n) && (after == "" || !IsDigit(after[0]))
    ensures var s := Shown(n) + after;
      DigitCount(s) == |Shown(n)| > 0 && s[..|Shown(n)|] == Shown(n) && Wrapped(Value(s[..|Shown(n)|])) == n
  {
    ValueOfDecimal(n);
    DigitCountIs(Decimal(n), after);
  }

  /** A 32-bit word with its bytes in the opposite order. */
  function Htonl(x: nat): nat
    requires x < 0x1_0000_0000
  {
    x / 0x100_0000 + x / 0x1_0000 % 0x100 * 0x100 + x / 0x100 % 0x100 * 0x1_0000 + x % 0x100 * 0x100_0000
  }

  function Bound(i: nat): nat
    requires i <= 4
  {
    match i case 0 => 1 case 1 => 0x100 case 2 => 0x1_0000 case 3 => 0x100_0000 case _ => 0x1_0000_0000
  }

  /** What `inet_aton` makes of the text `s` when it has read `i` fields into `ip` before. */
  function Aton(s: string, i: nat, ip: nat): Option<nat>
    requires i <= 4 && ip < Bound(i)
    decreases 4 - i
  {
    if i == 4 then Some(Htonl(ip))
    else
      var n := DigitCount(s);
      if n == 0 then None
      else
        var val := Wrapped(Value(s[..n]));
        if val < 0 || val > 255 then None
        else if i == 3 then Aton(s[n..], 4, ip * 0x100 + val)
        else if n < |s| && s[n] == '.' then Aton(s[n..][1..], i + 1, ip * 0x100 + val)
        else None
  }

  /** `inet_aton`. */
  method InetAton(s: string) returns (addr: Option<nat>)
    ensures addr == Aton(s, 0, 0)
  {
    hide Value, AllDigits, Htonl, DigitCount, Aton;
    var ip: nat, p: nat := 0, 0;
    assert s[0..] == s;
    for i := 0 to 4
      invariant p <= |s| && 0 <= ip < Bound(i) && Aton(s[p..], i, ip) == Aton(s, 0, 0)
    {
      var val, next := GetDec(s, p);
      AtonStep(s, p, i, ip);
      if val < 0 || val > 255 { return None; }
      p := next;
      if i != 3 {
        if p == |s| || s[p] != '.' { return None; }
        p := p + 1;
      }
      ip := ip * 0x100 + val;
    }
    AtonEnd(s[p..], ip);
    return Some(Htonl(ip));
  }

  lemma AtonEnd(s: string, ip: nat)
    requires ip < Bound(4)
    ensures Aton(s, 4, ip) == Some(Htonl(ip))
  {
  }

  lemma AtonStep(s: string, p: nat, i: nat, ip: nat)
    requires p <= |s| && i < 4 && ip < Bound(i)
    ensures var n := DigitCount(s[p..]); var next := p + n;
      var val := if n == 0 then -1 else Wrapped(Value(s[p..][..n]));
      Aton(s[p..], i, ip) ==
        if val < 0 || val > 255 then None
        else if i == 3 then Aton(s[next..], 4, ip * 0x100 + val)
        else if next < |s| && s[next] == '.' then Aton(s[next + 1..], i + 1, ip * 0x100 + val)
        else None
  {
    hide Htonl, Value, Wrapped;
    var n := DigitCount(s[p..]);
    var next := p + n;
    assert s[p..][n..] == s[next..];
    if next < |s| { assert s[next..][1..] == s[next + 1..]; }
  }

  // ---------- Dotted quads

  /** Byte `k` of an address in memory. */
  function AddrByte(addr: nat, k: nat): (b: nat)
    requires k < 4
    ensures b < 0x100
  {
    match k case 0 => addr % 0x100 case 1 => addr / 0x100 % 0x100 case 2 => addr / 0x1_0000 % 0x100 case _ => addr / 0x100_0000 % 0x100
  }

  /** Four texts with dots between them, and what follows. */
  function Dotted(a: string, b: string, c: string, d: string, after: string): string {
    a + ("." + (b + ("." + (c + ("." + (d + after))))))
  }

  /** What `%@` is to print. */
  function Quad(addr: nat): string {
    Dotted(Decimal(AddrByte(addr, 0)), Decimal(AddrByte(addr, 1)), Decimal(AddrByte(addr, 2)), Decimal(AddrByte(addr, 3)), "")
  }

  /** The fields from `k` on, each followed by a dot. */
  function Fields(addr: nat, k: nat): string
    requires k <= 4
    decreases 4 - k
  {
    if k == 4 then "" else Decimal(AddrByte(addr, k)) + ("." + Fields(addr, k + 1))
  }

  /** `%@`: prints the bytes in memory order, each with a dot, and takes the last dot back. */
  method PutQuad(tmp: array<char>, addr: nat) returns (q: nat)
    requires addr < 0x1_0000_0000 && tmp.Length >= 20
    modifies tmp
    ensures q <= 15 && tmp[..q] == Quad(addr)
  {
    hide Decimal, Numeral, AddrByte, Quad, Fields;
    q := 0;
    ghost var out := "";
    assert "" + Fields(addr, 0) == Fields(addr, 0);
    for r := 0 to 4
      invariant q <= 4 * r && tmp[..q] == out && out + Fields(addr, r) == Fields(addr, 0)
    {
      ghost var q0 := q;
      ThreeDigits(AddrByte(addr, r));
      var end := PutDecimal(tmp, q, AddrByte(addr, r));
      tmp[end] := '.';
      ghost var field := Decimal(AddrByte(addr, r)) + ".";
      assert tmp[..end + 1] == tmp[..q0] + tmp[q0..end] + ".";
      NextField(addr, r, out);
      out := out + field;
      q := end + 1;
    }
    QuadIsFields(addr);
    assert out == Fields(addr, 0);
    q := q - 1;
    assert tmp[..q] == tmp[..q + 1][..q];
  }

  lemma NextField(addr: nat, r: nat, out: string)
    requires r < 4
    ensures out + Fields(addr, r) == out + (Decimal(AddrByte(addr, r)) + ".") + Fields(addr, r + 1)
  {
  }

  lemma QuadIsFields(addr: nat)
    ensures Fields(addr, 0) == Quad(addr) + "." && Fields(addr, 4) == ""
  {
    hide Numeral, AddrByte;
    assert Fields(addr, 3) == Decimal(AddrByte(addr, 3)) + ".";
    assert Fields(addr, 2) == Decimal(AddrByte(addr, 2)) + ("." + Fields(addr, 3));
    assert Fields(addr, 1) == Decimal(AddrByte(addr, 1)) + ("." + Fields(addr, 2));
  }

  /** One step of `inet_aton` over a field below 256 that is followed by a dot. */
  lemma AtonField(v: nat, after: string, i: nat, ip: nat)
    requires v < 0x100 && i < 3 && ip < Bound(i)
    ensures Aton(Decimal(v) + ("." + after), i, ip) == Aton(after, i + 1, ip * 0x100 + v)
  {
    hide Numeral, Htonl;
    ValueOfDecimal(v);
    DigitCountIs(Decimal(v), "." + after);
    assert ("." + after)[1..] == after;
  }

  /** `inet_aton` reads four fields, whatever their values below 256, and ignores what follows. */
  lemma AtonOfFields(a: nat, b: nat, c: nat, d: nat, after: string)
    requires a < 0x100 && b < 0x100 && c < 0x100 && d < 0x100 && (after == "" || !IsDigit(after[0]))
    ensures Aton(Dotted(Decimal(a), Decimal(b), Decimal(c), Decimal(d), after), 0, 0)
         == Some(a + b * 0x100 + c * 0x1_0000 + d * 0x100_0000)
  {
    hide Decimal, Numeral, Aton, Htonl;
    AtonField(a, Decimal(b) + ("." + (Decimal(c) + ("." + (Decimal(d) + after)))), 0, 0);
    AtonField(b, Decimal(c) + ("." + (Decimal(d) + after)), 1, a);
    AtonField(c, Decimal(d) + after, 2, a * 0x100 + b);
    AtonLast(d, after, (a * 0x100 + b) * 0x100 + c);
    HtonlOfFields(a, b, c, d);
  }

  lemma AtonLast(d: nat, after: string, ip: nat)
    requires d < 0x100 && (after == "" || !IsDigit(after[0])) && ip < 0x100_0000
    ensures Aton(Decimal(d) + after, 3, ip) == Some(Htonl(ip * 0x100 + d))
  {
    hide Numeral, Htonl;
    ValueOfDecimal(d);
    DigitCountIs(Decimal(d), after);
  }

  lemma HtonlOfFields(a: nat, b: nat, c: nat, d: nat)
    requires a < 0x100 && b < 0x100 && c < 0x100 && d < 0x100
    ensures Htonl(((a * 0x100 + b) * 0x100 + c) * 0x100 + d) == a + b * 0x100 + c * 0x1_0000 + d * 0x100_0000
  {
    var y, z := a * 0x100 + b, (a * 0x100 + b) * 0x100 + c;
    var x := z * 0x100 + d;
    assert x / 0x100 == z && x % 0x100 == d;
    assert x / 0x1_0000 == y && z % 0x100 == c;
    assert x / 0x100_0000 == a && y % 0x100 == b;
  }

  /** Every address is read back from what `%@` prints for it. */
  lemma AddressRoundTrip(addr: nat)
    requires addr < 0x1_0000_0000
    ensures Aton(Quad(addr), 0, 0) == Some(addr)
  {
    hide Decimal, Numeral, Aton;
    AtonOfFields(AddrByte(addr, 0), AddrByte(addr, 1), AddrByte(addr, 2), AddrByte(addr, 3), "");
    FieldsOfAddress(addr);
  }

  lemma FieldsOfAddress(addr: nat)
    requires addr < 0x1_0000_0000
    ensures addr == AddrByte(addr, 0) + AddrByte(addr, 1) * 0x100 + AddrByte(addr, 2) * 0x1_0000 + AddrByte(addr, 3) * 0x100_0000
  {
    assert addr / 0x100 / 0x100 == addr / 0x1_0000 && addr / 0x1_0000 / 0x100 == addr / 0x100_0000;
  }

  /** A field as people write it. */
  predicate CanonicalField(s: string) {
    Canonical(s) && Value(s) < 0x100
  }

  /** Every canonical dotted quad is accepted, and printing the address gives the text back. */
  lemma TextRoundTrip(a: string, b: string, c: string, d: string)
    requires CanonicalField(a) && CanonicalField(b) && CanonicalField(c) && CanonicalField(d)
    ensures var s := Dotted(a, b, c, d, "");
      Aton(s, 0, 0).Some? && Aton(s, 0, 0).value < 0x1_0000_0000 && Quad(Aton(s, 0, 0).value) == s
  {
    hide Aton, Numeral;
    DecimalOfValue(a);
    DecimalOfValue(b);
    DecimalOfValue(c);
    DecimalOfValue(d);
    AtonOfFields(Value(a), Value(b), Value(c), Value(d), "");
    BytesOfFields(Value(a), Value(b), Value(c), Value(d));
  }

  lemma BytesOfFields(a: nat, b: nat, c: nat, d: nat)
    requires a < 0x100 && b < 0x100 && c < 0x100 && d < 0x100
    ensures var addr := a + b * 0x100 + c * 0x1_0000 + d * 0x100_0000;
      && addr < 0x1_0000_0000
      && AddrByte(addr, 0) == a && AddrByte(addr, 1) == b && AddrByte(addr, 2) == c && AddrByte(addr, 3) == d
  {
    var addr := a + b * 0x100 + c * 0x1_0000 + d * 0x100_0000;
    assert addr / 0x100 == b + c * 0x100 + d * 0x1_0000;
    assert addr / 0x1_0000 == c + d * 0x100;
    assert addr / 0x100_0000 == d;
  }

  // ---------- What inet_aton refuses

  /** A text in dotted form, of which only the first field is known to be one. */
  lemma FieldRead(digits: string, after: string, i: nat, ip: nat)
    requires i < 4 && ip < Bound(i) && AllDigits(digits) && Value(digits) < 0x8000_0000 && (after == "" || !IsDigit(after[0]))
    ensures Aton(digits + after, i, ip) ==
      if digits == "" || Value(digits) > 255 then None
      else if i == 3 then Some(Htonl(ip * 256 + Value(digits)))
      else if after == "" || after[0] != '.' then None
      else Aton(after[1..], i + 1, ip * 256 + Value(digits))
  {
    hide Htonl;
    DigitCountIs(digits, after);
    if digits != "" && i == 3 && Value(digits) <= 255 { AtonEnd(after, ip * 0x100 + Value(digits)); }
  }

  /** Four fields of digits with dots between them are accepted exactly if none is empty or above 255. */
  lemma AcceptedIff(a: string, b: string, c: string, d: string, after: string)
    requires AllDigits(a) && AllDigits(b) && AllDigits(c) && AllDigits(d) && (after == "" || !IsDigit(after[0]))
    requires Value(a) < 0x8000_0000 && Value(b) < 0x8000_0000 && Value(c) < 0x8000_0000 && Value(d) < 0x8000_0000
    ensures Aton(Dotted(a, b, c, d, after), 0, 0) ==
      if a != "" && b != "" && c != "" && d != "" && Value(a) <= 255 && Value(b) <= 255 && Value(c) <= 255 && Value(d) <= 255
      then Some(Value(a) + Value(b) * 256 + Value(c) * 65536 + Value(d) * 16777216) else None
  {
    hide Aton, Htonl, Value, AllDigits;
    var t1 := b + ("." + (c + ("." + (d + after))));
    assert ("." + t1)[1..] == t1;
    FieldRead(a, "." + t1, 0, 0);
    if a != "" && Value(a) <= 255 {
      LastThreeRead(b, c, d, after, Value(a));
      if b != "" && c != "" && d != "" && Value(b) <= 255 && Value(c) <= 255 && Value(d) <= 255 {
        HtonlOfFields(Value(a), Value(b), Value(c), Value(d));
      }
    }
  }

  lemma LastThreeRead(b: string, c: string, d: string, after: string, ip: nat)
    requires ip < 0x100 && AllDigits(b) && AllDigits(c) && AllDigits(d) && (after == "" || !IsDigit(after[0]))
    requires Value(b) < 0x8000_0000 && Value(c) < 0x8000_0000 && Value(d) < 0x8000_0000
    ensures Aton(b + ("." + (c + ("." + (d + after)))), 1, ip) ==
      if b != "" && c != "" && d != "" && Value(b) <= 255 && Value(c) <= 255 && Value(d) <= 255
      then Some(Htonl(((ip * 256 + Value(b)) * 256 + Value(c)) * 256 + Value(d))) else None
  {
    hide Aton, Htonl, Value, AllDigits;
    var t := c + ("." + (d + after));
    assert ("." + t)[1..] == t;
    FieldRead(b, "." + t, 1, ip);
    if b != "" && Value(b) <= 255 { LastTwoRead(c, d, after, ip * 256 + Value(b)); }
  }

  lemma LastTwoRead(c: string, d: string, after: string, ip: nat)
    requires ip < 0x1_0000 && AllDigits(c) && AllDigits(d) && (after == "" || !IsDigit(after[0]))
    requires Value(c) < 0x8000_0000 && Value(d) < 0x8000_0000
    ensures Aton(c + ("." + (d + after)), 2, ip) ==
      if c != "" && d != "" && Value(c) <= 255 && Value(d) <= 255 then Some(Htonl((ip * 256 + Value(c)) * 256 + Value(d))) else None
  {
    hide Aton, Htonl, Value, AllDigits;
    var t := d + after;
    assert ("." + t)[1..] == t;
    FieldRead(c, "." + t, 2, ip);
    if c != "" && Value(c) <= 255 { FieldRead(d, after, 3, ip * 256 + Value(c)); }
  }

  /** A field that is not followed by a dot. */
  lemma NoDotRefused(digits: string, after: string, i: nat, ip: nat)
    requires i < 3 && ip < Bound(i) && AllDigits(digits) && Value(digits) < 0x8000_0000
    requires after == "" || (!IsDigit(after[0]) && after[0] != '.')
    ensures Aton(digits + after, i, ip) == None
  {
    FieldRead(digits, after, i, ip);
  }
}

/** The hexadecimal conversions of netboot/misc.c: `%x`, `%hx`, `%hhx` and the hardware address `%!`. */
module Hexadecimal {
  import opened Numerals

  const ETH_ALEN: nat := 6

  // ---------- What a hexadecimal text denotes

  predicate IsHexDigit(c: char) {
    '0' <= c <= '9' || 'A' <= c <= 'F' || 'a' <= c <= 'f'
  }

  function HexDigitValue(c: char): (d: nat)
    requires IsHexDigit(c)
    ensures d < 16
  {
    if c <= '9' then c as int - '0' as int
    else if c <= 'F' then c as int - 'A' as int + 10
    else c as int - 'a' as int + 10
  }

  predicate AllHex(s: string) {
    forall i :: 0 <= i < |s| ==> IsHexDigit(s[i])
  }

  /** The number denoted, most significant digit first. */
  function HexValue(s: string): nat
    requires AllHex(s)
  {
    if s == "" then 0 else 16 * HexValue(s[..|s| - 1]) + HexDigitValue(s[|s| - 1])
  }

  /** No letter of the other case. */
  predicate OfCase(s: string, upper: bool) {
    forall i :: 0 <= i < |s| ==> if upper then s[i] <= 'F' else !('A' <= s[i] <= 'F')
  }

  function Pow16(k: nat): (p: nat)
    ensures p > 0
  {
    if k == 0 then 1 else 16 * Pow16(k - 1)
  }

  // ---------- The text of a given width

  function HexChar(d: nat, upper: bool): char
    requires d < 16
  {
    if d < 10 then ('0' as int + d) as char
    else if upper then ('A' as int + d - 10) as char else ('a' as int + d - 10) as char
  }

  /** The last `width` hexadecimal digits of `h`, which may be negative. */
  function HexText(h: int, width: nat, upper: bool): (s: string)
    ensures |s| == width
    decreases width
  {
    if width == 0 then "" else HexText(h / 16, width - 1, upper) + [HexChar(h % 16, upper)]
  }

  /** The text denotes the number modulo the power of 16 that its width holds. */
  lemma {:induction false} HexDenotes(h: int, width: nat, upper: bool)
    ensures var s := HexText(h, width, upper);
      AllHex(s) && OfCase(s, upper) && HexValue(s) == h % Pow16(width)
    decreases width
  {
    hide HexChar, HexDigitValue, IsHexDigit;
    if width > 0 {
      var s, t, c := HexText(h, width, upper), HexText(h / 16, width - 1, upper), HexChar(h % 16, upper);
      HexDenotes(h / 16, width - 1, upper);
      LowDigit(h, Pow16(width - 1));
      OneDigit(h % 16, upper);
      assert s == t + [c] && s[..width - 1] == t;
    }
  }

  lemma DigitOfChar(c: char, upper: bool)
    requires IsHexDigit(c) && if upper then c <= 'F' else !('A' <= c <= 'F')
    ensures HexChar(HexDigitValue(c), upper) == c
  {
  }

  lemma OneDigit(d: nat, upper: bool)
    requires d < 16
    ensures var c := HexChar(d, upper);
      IsHexDigit(c) && HexDigitValue(c) == d && OfCase([c], upper)
  {
  }

  /** Every text of hexadecimal digits in one case is the one printed for its value. */
  lemma {:induction false} TextOfValue(s: string, upper: bool)
    requires AllHex(s) && OfCase(s, upper)
    ensures HexText(HexValue(s), |s|, upper) == s
    decreases |s|
  {
    hide HexChar, HexDigitValue, IsHexDigit;
    if s != "" {
      var t, c := s[..|s| - 1], s[|s| - 1];
      TextOfValue(t, upper);
      var v, d := HexValue(t), HexDigitValue(c);
      assert HexValue(s) / 16 == v && HexValue(s) % 16 == d;
      DigitOfChar(c, upper);
      assert s == t + [c];
    }
  }

  lemma QuotientIs(x: int, d: nat, q: int, r: nat)
    requires d > 0 && r < d && x == q * d + r
    ensures x / d == q && x % d == r
  {
    var q', r' := x / d, x % d;
    assert x == q' * d + r';
    assert (q - q') * d == r' - r;
    Times(q - q', d);
  }

  lemma Times(k: int, d: int)
    requires d > 0
    ensures k >= 1 ==> k * d >= d
    ensures k <= -1 ==> k * d <= -d
  {
  }

  /** Splitting off the lowest digit of a remainder. */
  lemma LowDigit(h: int, p: nat)
    requires p > 0
    ensures h % (16 * p) == 16 * (h / 16 % p) + h % 16
    ensures h / 16 / p == h / (16 * p)
  {
    var q, r := h / 16 / p, h / 16 % p;
    assert h / 16 == q * p + r;
    assert h == q * (16 * p) + (16 * r + h % 16);
    QuotientIs(h, 16 * p, q, 16 * r + h % 16);
  }

  /** Shifting by one more digit. */
  lemma ShiftTwice(h: int, p: nat)
    requires p > 0
    ensures h / p / 16 == h / (16 * p)
  {
    var q := h / p;
    var r := h % p;
    assert h == q * p + r;
    assert q == 16 * (q / 16) + q % 16;
    assert h == (q / 16) * (16 * p) + (q % 16 * p + r);
    assert q % 16 * p + r < 16 * p by { Below(q % 16, p); }
    QuotientIs(h, 16 * p, q / 16, q % 16 * p + r);
  }

  lemma Below(m: nat, p: nat)
    requires m < 16
    ensures 0 <= m * p <= 15 * p
  {
    assert (15 - m) * p >= 0;
  }

  // ---------- The printer

  /** What `%#x` puts before the digits. */
  function Prefix(alt: bool, upper: bool): string {
    if !alt then "" else if upper then "0X" else "0x"
  }

  /** `%x` (8 digits), `%hx` (4) and `%hhx` (2). */
  method PutHex(tmp: array<char>, start: nat, h: int, width: nat, alt: bool, upper: bool) returns (q: nat)
    requires width in {2, 4, 8} && start + 2 + width <= tmp.Length
    modifies tmp
    ensures q <= tmp.Length && tmp[..q] == old(tmp[..start]) + Prefix(alt, upper) + HexText(h, width, upper)
  {
    ghost var before := tmp[..start];
    q := start;
    if alt {
      tmp[q], tmp[q + 1] := '0', if upper then 'X' else 'x';
      q := q + 2;
    }
    assert tmp[..q] == before + Prefix(alt, upper);
    q := PutDigits(tmp, q, h, width, upper);
  }

  /** From the highest digit down, by shifts. */
  method PutDigits(tmp: array<char>, start: nat, h: int, width: nat, upper: bool) returns (q: nat)
    requires start + width <= tmp.Length
    modifies tmp
    ensures q <= tmp.Length && tmp[..q] == old(tmp[..start]) + HexText(h, width, upper)
  {
    hide HexText, Pow16;
    ghost var before := tmp[..start];
    q := start;
    var left := width;
    NothingShifted(h, width, upper);
    while left > 0
      invariant 0 <= left <= width && q == start + width - left
      invariant tmp[..q] == before + HexText(h / Pow16(left), width - left, upper)
    {
      ghost var sofar := tmp[..q];
      left := left - 1;
      OneMoreDigit(h, left, width, upper);
      tmp[q] := HexChar(h / Pow16(left) % 16, upper);
      assert tmp[..q + 1] == sofar + [tmp[q]];
      q := q + 1;
    }
    NothingShifted(h, width, upper);
  }

  lemma NothingShifted(h: int, width: nat, upper: bool)
    ensures HexText(h / Pow16(width), 0, upper) == "" && h / Pow16(0) == h
  {
  }

  lemma OneMoreDigit(h: int, left: nat, width: nat, upper: bool)
    requires left < width
    ensures HexText(h / Pow16(left), width - left, upper)
         == HexText(h / Pow16(left + 1), width - left - 1, upper) + [HexChar(h / Pow16(left) % 16, upper)]
  {
    ShiftTwice(h, Pow16(left));
  }

  /** A hardware address as text, the separators being part of it. */
  function MacText(mac: seq<int>): (s: string)
    ensures |s| == 3 * |mac|
  {
    if mac == [] then "" else MacText(mac[..|mac| - 1]) + HexText(mac[|mac| - 1], 2, true) + ":"
  }

  /** `%!`: the bytes with colons between them.  A byte may be negative, as `char` is on some machines. */
  method PutMac(tmp: array<char>, mac: seq<int>) returns (q: nat)
    requires |mac| == ETH_ALEN && tmp.Length >= 20
    modifies tmp
    ensures q == 17 && tmp[..q] == MacText(mac)[..17]
  {
    hide HexText, MacText;
    q := 0;
    var p := 0;
    EmptyMac();
    while p < ETH_ALEN
      invariant 0 <= p <= ETH_ALEN && q == 3 * p && tmp[..q] == MacText(mac[..p])
    {
      ghost var done := tmp[..q];
      q := PutHex(tmp, q, mac[p], 2, false, true);
      assert tmp[..q] == done + HexText(mac[p], 2, true);
      tmp[q] := ':';
      assert tmp[..q + 1] == done + HexText(mac[p], 2, true) + ":";
      MacStep(mac, p);
      q := q + 1;
      p := p + 1;
    }
    assert mac[..p] == mac;
    q := q - 1;
  }

  lemma EmptyMac()
    ensures MacText([]) == ""
  {
  }

  lemma MacStep(mac: seq<int>, p: nat)
    requires p < |mac|
    ensures MacText(mac[..p + 1]) == MacText(mac[..p]) + HexText(mac[p], 2, true) + ":"
  {
    assert mac[..p + 1][..p] == mac[..p];
  }

  /** Every byte is read back from its two digits, which stand between colons. */
  lemma {:induction false} MacReadsBack(mac: seq<int>, k: nat)
    requires k < |mac|
    ensures var s := MacText(mac);
      var digits := s[3 * k..3 * k + 2];
      AllHex(digits) && HexValue(digits) == mac[k] % 0x100 && s[3 * k + 2] == ':'
    decreases |mac|
  {
    var n := |mac| - 1;
    var s := MacText(mac);
    var before, last := MacText(mac[..n]), HexText(mac[n], 2, true);
    assert s == before + last + ":";
    if k < n {
      MacReadsBack(mac[..n], k);
      assert s[3 * k..3 * k + 2] == before[3 * k..3 * k + 2];
    } else {
      HexDenotes(mac[n], 2, true);
      assert Pow16(2) == 0x100;
      assert s[3 * n..3 * n + 2] == last;
    }
  }

  // ---------- Numerals without leading zeros

  /** `itoa` in hexadecimal: the text denotes the number, in small letters, without superfluous zeros. */
  lemma {:induction false} NumeralDenotes(n: nat)
    ensures var s := Numeral(n, 16);
      && AllHex(s) && OfCase(s, false) && HexValue(s) == n
      && (s[0] == '0' ==> s == "0" && n == 0)
    decreases n
  {
    hide HexDigitValue, IsHexDigit;
    DigitDenotes(n % 16);
    if n >= 16 {
      NumeralDenotes(n / 16);
      var s, t := Numeral(n, 16), Numeral(n / 16, 16);
      assert s == t + [DigitChar(n % 16)] && s[..|s| - 1] == t && s[0] == t[0];
    } else {
      assert Numeral(n, 16) == [DigitChar(n)] && [DigitChar(n)][..0] == "";
      assert HexValue("") == 0;
    }
  }

  lemma DigitDenotes(d: nat)
    requires d < 16
    ensures var c := DigitChar(d);
      IsHexDigit(c) && HexDigitValue(c) == d && !('A' <= c <= 'F') && (c == '0' <==> d == 0)
  {
  }

  /** What `#` puts in front is what C puts in front of a hexadecimal number. */
  lemma PrefixIs()
    ensures Prefix(true, true) == "0X" && Prefix(true, false) == "0x" && Prefix(false, true) == Prefix(false, false) == ""
  {
  }
}

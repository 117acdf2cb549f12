/** Numerals as texts: what printing a number means, and that reading is its inverse. */
module Numerals {

  /** The character of digit `d`; beyond 9 the letters from 'a'. */
  function DigitChar(d: nat): char
    requires d < 16
  {
    if d < 10 then ('0' as int + d) as char else ('a' as int + d - 10) as char
  }

  predicate IsDigit(c: char) {
    '0' <= c <= '9'
  }

  function DigitValue(c: char): (d: nat)
    requires IsDigit(c)
    ensures d < 10
  {
    c as int - '0' as int
  }

  /** The numeral of `n`, most significant digit first, without leading zeros. */
  function Numeral(n: nat, radix: nat): (s: string)
    requires 2 <= radix <= 16
    ensures s != ""
  {
    if n < radix then [DigitChar(n)] else Numeral(n / radix, radix) + [DigitChar(n % radix)]
  }

  function Decimal(n: nat): string {
    Numeral(n, 10)
  }

  predicate AllDigits(s: string) {
    forall i :: 0 <= i < |s| ==> IsDigit(s[i])
  }

  /** The number a text of digits denotes. */
  function Value(s: string): nat
    requires AllDigits(s)
  {
    if s == "" then 0 else 10 * Value(s[..|s| - 1]) + DigitValue(s[|s| - 1])
  }

  /** No superfluous zero at the front. */
  predicate Canonical(s: string) {
    s != "" && AllDigits(s) && (s[0] == '0' ==> |s| == 1)
  }

  /** Reading what was printed gives the number back, and what is printed is canonical. */
  lemma {:induction false} ValueOfDecimal(n: nat)
    ensures AllDigits(Decimal(n)) && Value(Decimal(n)) == n && Canonical(Decimal(n))
    ensures n > 0 ==> Decimal(n)[0] != '0'
    decreases n
  {
    if n >= 10 {
      ValueOfDecimal(n / 10);
      assert Decimal(n)[..|Decimal(n)| - 1] == Decimal(n / 10);
    } else {
      assert Decimal(n)[..0] == "";
    }
  }

  /** Printing what was read gives a canonical text back. */
  lemma {:induction false} DecimalOfValue(s: string)
    requires Canonical(s)
    ensures Decimal(Value(s)) == s
    ensures |s| > 1 ==> Value(s) >= 10
    decreases |s|
  {
    var t := s[..|s| - 1];
    if |s| == 1 {
      assert t == "" && Value(s) == DigitValue(s[0]) && s == [DigitChar(Value(s))];
    } else {
      assert t[0] == s[0];
      DecimalOfValue(t);
      if |t| == 1 { assert t[..0] == "" && Value(t) == DigitValue(t[0]) && DigitValue(t[0]) >= 1; }
      assert Value(s) / 10 == Value(t) && Value(s) % 10 == DigitValue(s[|s| - 1]);
      assert s == t + [s[|s| - 1]];
    }
  }

  /** Few digits denote small numbers. */
  lemma {:induction false} ThreeDigits(n: nat)
    requires n < 256
    ensures |Decimal(n)| <= 3
  {
    assert n >= 10 ==> Decimal(n) == Decimal(n / 10) + [DigitChar(n % 10)];
    assert n >= 100 ==> Decimal(n / 10) == Decimal(n / 100) + [DigitChar(n / 10 % 10)] by {
      assert n / 10 / 10 == n / 100;
    }
  }

  // ---------- The digits as they are produced: least significant first

  /** What the division loops write before the text is reversed. */
  function Backwards(n: nat, radix: nat): (s: string)
    requires 2 <= radix <= 16
    ensures s != ""
  {
    [DigitChar(n % radix)] + (if n < radix then "" else Backwards(n / radix, radix))
  }

  function Reverse(s: string): (r: string)
    ensures |r| == |s|
    ensures forall i :: 0 <= i < |s| ==> r[i] == s[|s| - 1 - i]
  {
    seq(|s|, i requires 0 <= i < |s| => s[|s| - 1 - i])
  }

  lemma {:induction false} ReverseBackwards(n: nat, radix: nat)
    requires 2 <= radix <= 16
    ensures Reverse(Backwards(n, radix)) == Numeral(n, radix)
    decreases n
  {
    LastDigit(n, radix);
    if n < radix {
      assert Backwards(n, radix) == [DigitChar(n)];
    } else {
      ReverseBackwards(n / radix, radix);
      var t := Backwards(n / radix, radix);
      assert Backwards(n, radix) == [DigitChar(n % radix)] + t;
      assert Reverse([DigitChar(n % radix)] + t) == Reverse(t) + [DigitChar(n % radix)];
    }
  }

  /** The digit that division splits off, and what remains. */
  lemma LastDigit(n: nat, radix: nat)
    requires radix >= 2
    ensures n < radix ==> n % radix == n && n / radix == 0
    ensures n >= radix ==> 0 < n / radix < n
  {
    var q, m := n / radix, n % radix;
    assert n == q * radix + m && 0 <= m < radix;
    if q == 0 {
      assert q * radix == 0;
    } else {
      Grows(q, radix);
    }
  }

  lemma {:induction false} Grows(q: nat, radix: nat)
    requires q >= 1 && radix >= 2
    ensures q * radix >= radix && q * radix > q
    decreases q
  {
    if q > 1 {
      Grows(q - 1, radix);
      assert q * radix == (q - 1) * radix + radix;
    }
  }
}

/** Numbers written in decimal digits. */
module Decimals {
  predicate Digit(c: char) { '0' <= c <= '9' }

  predicate AllDigits(s: string) { forall i :: 0 <= i < |s| ==> Digit(s[i]) }

  function DigitChar(d: nat): (c: char)
    requires d < 10
    ensures Digit(c)
  {
    ('0' as int + d) as char
  }

  function DigitValue(c: char): (d: nat)
    requires Digit(c)
    ensures d < 10
  {
    c as int - '0' as int
  }

  function Decimal(k: nat): string {
    if k < 10 then [DigitChar(k)] else Decimal(k / 10) + [DigitChar(k % 10)]
  }

  function ReadDecimal(s: string): nat
    requires AllDigits(s)
  {
    if s == [] then 0 else ReadDecimal(s[..|s| - 1]) * 10 + DigitValue(s[|s| - 1])
  }

  lemma {:induction false} DecimalRead(k: nat)
    ensures Decimal(k) != [] && AllDigits(Decimal(k)) && ReadDecimal(Decimal(k)) == k
    decreases k
  {
    if k < 10 {
      assert Decimal(k)[..0] == [];
    } else {
      DecimalRead(k / 10);
      assert Decimal(k)[..|Decimal(k)| - 1] == Decimal(k / 10);
    }
  }

  function Pow10(n: nat): (p: nat)
    ensures p > 0
  {
    if n == 0 then 1 else 10 * Pow10(n - 1)
  }

  function Zeros(n: nat): (s: string)
    ensures |s| == n && AllDigits(s)
  {
    seq(n, _ => '0')
  }

  lemma ReadSnoc(s: string, c: char)
    requires AllDigits(s) && Digit(c)
    ensures AllDigits(s + [c]) && ReadDecimal(s + [c]) == ReadDecimal(s) * 10 + DigitValue(c)
  {
    assert (s + [c])[..|s|] == s;
  }

  lemma Scale(a: nat, b: nat, p: nat)
    ensures (a * p + b) * 10 == a * (10 * p) + b * 10
  {}

  lemma {:induction false} ReadConcat(s: string, t: string)
    requires AllDigits(s) && AllDigits(t)
    ensures AllDigits(s + t) && ReadDecimal(s + t) == ReadDecimal(s) * Pow10(|t|) + ReadDecimal(t)
    decreases |t|
  {
    if t == [] {
      assert s + t == s;
    } else {
      var n := |t| - 1;
      var u := t[..n];
      ReadConcat(s, u);
      assert s + t == (s + u) + [t[n]];
      ReadSnoc(s + u, t[n]);
      Scale(ReadDecimal(s), ReadDecimal(u), Pow10(n));
    }
  }

  lemma {:induction false} ReadBelow(s: string)
    requires AllDigits(s)
    ensures ReadDecimal(s) < Pow10(|s|)
    decreases |s|
  {
    if s != [] { ReadBelow(s[..|s| - 1]); }
  }

  /** A text without a leading zero is as long as its number is large. */
  lemma {:induction false} ReadAbove(s: string)
    requires AllDigits(s) && s != [] && s[0] != '0'
    ensures ReadDecimal(s) >= Pow10(|s| - 1)
    decreases |s|
  {
    if |s| > 1 { ReadAbove(s[..|s| - 1]); } else { assert s[..0] == []; }
  }

  lemma {:induction false} Pow10Monotone(a: nat, b: nat)
    requires a <= b
    ensures Pow10(a) <= Pow10(b)
    decreases b
  {
    if a < b { Pow10Monotone(a, b - 1); }
  }

  lemma {:induction false} ReadZeros(n: nat)
    ensures ReadDecimal(Zeros(n)) == 0
    decreases n
  {
    if n > 0 {
      ReadZeros(n - 1);
      assert Zeros(n)[..n - 1] == Zeros(n - 1);
    }
  }

  lemma ReadLeadingZeros(n: nat, s: string)
    requires AllDigits(s)
    ensures AllDigits(Zeros(n) + s) && ReadDecimal(Zeros(n) + s) == ReadDecimal(s)
  {
    ReadZeros(n);
    ReadConcat(Zeros(n), s);
  }

  function Padded(s: string, n: nat): (r: string)
    ensures |r| >= n && |r| >= |s|
  {
    if |s| >= n then s else Zeros(n - |s|) + s
  }

  lemma {:induction false} DecimalLength(k: nat, w: nat)
    requires w > 0 && k < Pow10(w)
    ensures |Decimal(k)| <= w
    decreases w
  {
    if w > 1 && k >= 10 { DecimalLength(k / 10, w - 1); } else { assert Pow10(1) == 10 * Pow10(0); }
  }

  /** A number that fits is written with exactly w digits. */
  lemma PaddedRead(k: nat, w: nat)
    requires w > 0 && k < Pow10(w)
    ensures var s := Padded(Decimal(k), w); |s| == w && AllDigits(s) && ReadDecimal(s) == k
  {
    DecimalLength(k, w);
    DecimalRead(k);
    hide Decimal, ReadDecimal, Pow10;
    var s := Decimal(k);
    if |s| < w { ReadLeadingZeros(w - |s|, s); }
  }
}

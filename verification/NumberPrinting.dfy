/** Printing a rational number with a number format: rounding, the integer part from right to left, blanks and signs. */
module NumberPrinting {
  import opened Sequences
  import opened Arithmetic
  import opened Decimals
  import opened NumberFormat

  // ----- rounding -----

  /** num / den in units of 10^-frac, halves rounded up. */
  function Rounded(num: nat, den: nat, frac: nat): nat
    requires den > 0
  {
    RoundedQuotient(num * Pow10(frac), den)
  }

  function RoundedQuotient(scaled: nat, den: nat): nat
    requires den > 0
  {
    if 2 * (scaled % den) >= den then scaled / den + 1 else scaled / den
  }

  /** The nearest unit, and of two equally near ones the larger. */
  lemma RoundedNearest(scaled: nat, den: nat)
    requires den > 0
    ensures var q := RoundedQuotient(scaled, den); 2 * scaled - den < 2 * (q * den) <= 2 * scaled + den
  {
    var q, r := scaled / den, scaled % den;
    assert scaled == q * den + r;
    assert (q + 1) * den == q * den + den;
  }

  // ----- the digits -----

  function TrimLeft(s: string): (r: string)
    ensures |r| <= |s| && (r != [] ==> r[0] != '0')
  {
    if s != [] && s[0] == '0' then TrimLeft(s[1..]) else s
  }

  function Digits(q: nat, frac: nat): (s: string)
    ensures |s| > frac
  {
    Padded(Decimal(q), frac + 1)
  }

  /** The integer part without leading zeros, empty for zero. */
  function IntText(q: nat, frac: nat): (r: string)
    ensures r != [] ==> r[0] != '0'
  {
    TrimLeft(Digits(q, frac)[..|Digits(q, frac)| - frac])
  }

  function FracText(q: nat, frac: nat): (r: string)
    ensures |r| == frac
  {
    Digits(q, frac)[|Digits(q, frac)| - frac..]
  }

  lemma {:induction false} TrimLeftRead(s: string)
    requires AllDigits(s)
    ensures AllDigits(TrimLeft(s)) && ReadDecimal(TrimLeft(s)) == ReadDecimal(s)
    decreases |s|
  {
    if s != [] && s[0] == '0' {
      TrimLeftRead(s[1..]);
      assert Zeros(1) + s[1..] == s;
      ReadLeadingZeros(1, s[1..]);
    }
  }

  lemma DigitsRead(q: nat, frac: nat)
    ensures AllDigits(IntText(q, frac)) && AllDigits(FracText(q, frac))
    ensures q == ReadDecimal(IntText(q, frac)) * Pow10(frac) + ReadDecimal(FracText(q, frac))
  {
    hide Digits, ReadDecimal, TrimLeft, Pow10;
    DigitsOf(q, frac);
    var d := Digits(q, frac);
    var n := |d| - frac;
    TrimLeftRead(d[..n]);
    assert d == d[..n] + d[n..];
    ReadConcat(d[..n], d[n..]);
  }

  lemma DigitsOf(q: nat, frac: nat)
    ensures AllDigits(Digits(q, frac)) && ReadDecimal(Digits(q, frac)) == q
  {
    DecimalRead(q);
    hide Decimal, ReadDecimal;
    var s := Decimal(q);
    if |s| < frac + 1 { ReadLeadingZeros(frac + 1 - |s|, s); }
  }

  lemma {:induction false} Pow10Add(a: nat, b: nat)
    ensures Pow10(a + b) == Pow10(a) * Pow10(b)
    decreases a
  {
    if a > 0 { Pow10Add(a - 1, b); }
  }

  lemma AtLeast(a: nat, b: nat, p: nat, bound: nat)
    requires b < p
    ensures a * p + b >= bound * p <==> a >= bound
  {
    if a >= bound {
      MulLe(bound, a, p);
    } else {
      MulLe(a + 1, bound, p);
      assert (a + 1) * p == a * p + p;
    }
  }

  lemma {:induction false} LongAtLeast(s: string, d: nat)
    requires AllDigits(s) && (s != [] ==> s[0] != '0')
    ensures |s| > d <==> ReadDecimal(s) >= Pow10(d)
  {
    hide ReadDecimal, Pow10;
    if |s| > d {
      ReadAbove(s);
      Pow10Monotone(d, |s| - 1);
    } else {
      ReadBelow(s);
      Pow10Monotone(|s|, d);
    }
  }

  /** The integer part does not fit in d digits. */
  lemma LongIff(q: nat, frac: nat, d: nat)
    ensures |IntText(q, frac)| > d <==> q >= Pow10(d + frac)
  {
    DigitsRead(q, frac);
    hide *;
    var s, t := IntText(q, frac), FracText(q, frac);
    ReadBelow(t);
    Pow10Add(d, frac);
    LongAtLeast(s, d);
    AtLeast(ReadDecimal(s), ReadDecimal(t), Pow10(frac), Pow10(d));
  }

  // ----- the integer part -----

  function Init(s: string): string { if s == [] then s else s[..|s| - 1] }

  /** The character for the digit element at i, the digits rem being still to print. */
  function FillChar(f: Format, i: nat, rem: string, overflow: bool, zero: bool): char {
    if overflow then '#'
    else if rem != [] then rem[|rem| - 1]
    else if f.zeroFrom >= 0 && i >= f.zeroFrom then '0'
    else if i == |f.intElems| - 1 && zero && f.fracDigits == 0 then '0'
    else ' '
  }

  /** The first i integer elements, printed from right to left. */
  function Fill(f: Format, i: nat, rem: string, overflow: bool, zero: bool): (r: string)
    requires i <= |f.intElems|
    ensures |r| == i
    decreases i
  {
    if i == 0 then ""
    else if f.intElems[i - 1] == ',' then Fill(f, i - 1, rem, overflow, zero) + [',']
    else Fill(f, i - 1, Init(rem), overflow, zero) + [FillChar(f, i - 1, rem, overflow, zero)]
  }

  /** Separators and blanks before the first other character become blanks. */
  function Blanked(s: string): (r: string)
    ensures |r| == |s|
  {
    if s == [] || (s[0] != ',' && s[0] != ' ') then s else [' '] + Blanked(s[1..])
  }

  function Lead(s: string): (n: nat)
    ensures n <= |s|
  {
    if s == [] || s[0] != ' ' then 0 else 1 + Lead(s[1..])
  }

  function Repeat(c: char, n: nat): (s: string)
    ensures |s| == n
  {
    seq(n, _ => c)
  }

  function TrimRight(s: string): (r: string)
    ensures |r| <= |s|
  {
    if s != [] && s[|s| - 1] == '0' then TrimRight(s[..|s| - 1]) else s
  }

  // ----- the whole text -----

  predicate Overflows(f: Format, q: nat) { |IntText(q, f.fracDigits)| > f.intDigits }

  function IntOut(f: Format, q: nat): (r: string)
    ensures |r| == |f.intElems|
  {
    var s := IntText(q, f.fracDigits);
    Blanked(Fill(f, |f.intElems|, s, |s| > f.intDigits, s == ""))
  }

  function FracOut(f: Format, q: nat): (r: string)
    ensures |r| == f.fracDigits
  {
    if Overflows(f, q) then Repeat('#', f.fracDigits) else FracText(q, f.fracDigits)
  }

  function Body(f: Format, q: nat): string {
    IntOut(f, q)[Lead(IntOut(f, q))..] + if f.hasPoint then ['.'] + FracOut(f, q) else ""
  }

  function Number(f: Format, q: nat): string {
    if f.fm && f.hasPoint && !Overflows(f, q) then TrimRight(Body(f, q)) else Body(f, q)
  }

  function BeforeNumber(f: Format, neg: bool): string {
    match f.sign
    case Default => if neg then "-" else if f.fm then "" else " "
    case LeadingS => if neg then "-" else "+"
    case PR => if neg then "<" else if f.fm then "" else " "
    case _ => ""
  }

  function AfterNumber(f: Format, neg: bool): string {
    match f.sign
    case TrailingS => if neg then "-" else "+"
    case MI => if neg then "-" else if f.fm then "" else " "
    case PR => if neg then ">" else if f.fm then "" else " "
    case _ => ""
  }

  function Printed(f: Format, q: nat, neg: bool): string {
    (if f.fm then "" else Repeat(' ', Lead(IntOut(f, q)))) + BeforeNumber(f, neg) + f.currency + Number(f, q)
    + AfterNumber(f, neg)
  }

  /** B prints a zero integer part as blanks. */
  predicate Blanks(f: Format, q: nat) { f.blankZero && IntText(q, f.fracDigits) == "" }

  function Print(f: Format, q: nat, neg: bool): string {
    if Blanks(f, q) then Repeat(' ', |Printed(f, q, neg)|) else Printed(f, q, neg)
  }

  // ----- the printer -----

  method PadDigits(s: string, n: nat) returns (r: string)
    ensures r == Padded(s, n)
  {
    r := s;
    ghost var k: nat := 0;
    while |r| < n
      invariant r == Zeros(k) + s && (k == 0 || |r| <= n)
    {
      assert ['0'] + Zeros(k) == Zeros(k + 1);
      r := ['0'] + r;
      k := k + 1;
    }
    assert Zeros(0) + s == s;
  }

  /** The digits not printed yet when di is the index of the next one. */
  function Remaining(s: string, di: int): string
    requires di < |s|
  {
    if di < 0 then "" else s[..di + 1]
  }

  /** The elements from i on are printed as tail. */
  ghost predicate Filled(f: Format, intStr: string, i: nat, di: int, tail: string, overflow: bool, zero: bool)
    requires i <= |f.intElems| && di < |intStr|
  {
    Fill(f, |f.intElems|, intStr, overflow, zero) == Fill(f, i, Remaining(intStr, di), overflow, zero) + tail
  }

  lemma FilledNothing(f: Format, intStr: string, overflow: bool, zero: bool)
    ensures Filled(f, intStr, |f.intElems|, |intStr| - 1, [], overflow, zero)
  {
    assert intStr[..|intStr|] == intStr;
  }

  lemma FilledSeparator(f: Format, intStr: string, i: nat, di: int, tail: string, overflow: bool, zero: bool)
    requires i < |f.intElems| && di < |intStr| && f.intElems[i] == ','
    requires Filled(f, intStr, i + 1, di, tail, overflow, zero)
    ensures Filled(f, intStr, i, di, [','] + tail, overflow, zero)
  {
    var a := Fill(f, i, Remaining(intStr, di), overflow, zero);
    assert Fill(f, i + 1, Remaining(intStr, di), overflow, zero) == a + [','];
    hide Fill, Remaining;
    assert (a + [',']) + tail == a + ([','] + tail);
  }

  lemma FilledDigit(f: Format, intStr: string, i: nat, di: int, tail: string, overflow: bool, zero: bool)
    requires i < |f.intElems| && di < |intStr| && f.intElems[i] != ','
    requires Filled(f, intStr, i + 1, di, tail, overflow, zero)
    ensures Filled(f, intStr, i, di - 1, [FillChar(f, i, Remaining(intStr, di), overflow, zero)] + tail, overflow, zero)
  {
    var rem := Remaining(intStr, di);
    assert Init(rem) == Remaining(intStr, di - 1);
    var a, c := Fill(f, i, Init(rem), overflow, zero), FillChar(f, i, rem, overflow, zero);
    assert Fill(f, i + 1, rem, overflow, zero) == a + [c];
    hide Fill, Remaining, FillChar, Init;
    assert (a + [c]) + tail == a + ([c] + tail);
  }

  /** The integer elements from right to left. */
  method FillInteger(f: Format, intStr: string, overflow: bool, zero: bool) returns (out: array<char>)
    ensures fresh(out) && out[..] == Fill(f, |f.intElems|, intStr, overflow, zero)
  {
    hide *;
    out := new char[|f.intElems|];
    var i: nat, di := |f.intElems|, |intStr| - 1;
    FilledNothing(f, intStr, overflow, zero);
    assert out[i..] == [];
    while i > 0
      invariant i <= out.Length == |f.intElems| && di < |intStr| && Filled(f, intStr, i, di, out[i..], overflow, zero)
    {
      i := i - 1;
      if f.intElems[i] == ',' {
        FilledSeparator(f, intStr, i, di, out[i + 1..], overflow, zero);
        Put(out, i, ',');
      } else {
        FilledDigit(f, intStr, i, di, out[i + 1..], overflow, zero);
        Put(out, i, FillChar(f, i, Remaining(intStr, di), overflow, zero));
        di := di - 1;
      }
    }
    FilledAll(f, intStr, di, out[i..], overflow, zero);
    assert out[i..] == out[..];
  }

  method Put(out: array<char>, i: nat, c: char)
    requires i < out.Length
    modifies out
    ensures out[i..] == [c] + old(out[i + 1..])
  {
    out[i] := c;
  }

  lemma FilledAll(f: Format, intStr: string, di: int, tail: string, overflow: bool, zero: bool)
    requires di < |intStr| && Filled(f, intStr, 0, di, tail, overflow, zero)
    ensures tail == Fill(f, |f.intElems|, intStr, overflow, zero)
  {}

  lemma BlankedStep(done: string, rest: string)
    requires rest != []
    ensures rest[0] != ',' && rest[0] != ' ' ==> Blanked(rest) == rest
    ensures rest[0] == ',' || rest[0] == ' ' ==> done + Blanked(rest) == (done + [' ']) + Blanked(rest[1..])
  {
    var t := Blanked(rest[1..]);
    assert done + ([' '] + t) == (done + [' ']) + t;
  }

  lemma SetNext(done: string, rest: string, c: char)
    requires rest != []
    ensures (done + rest)[|done| := c] == (done + [c]) + rest[1..]
  {}

  /** Blanks out the separators that would stand before the first printed character. */
  method BlankLeading(out: array<char>)
    modifies out
    ensures out[..] == Blanked(old(out[..]))
  {
    ghost var done: string, rest: string := "", out[..];
    var i: nat := 0;
    while i < out.Length
      invariant i == |done| <= out.Length && out[..] == done + rest
      invariant Blanked(old(out[..])) == done + Blanked(rest)
    {
      hide Blanked;
      BlankedStep(done, rest);
      assert out[i] == out[..][i] == rest[0];
      if out[i] != ',' && out[i] != ' ' { return; }
      SetNext(done, rest, ' ');
      ghost var next := out[..][i := ' '];
      out[i] := ' ';
      assert out[..] == next;
      done, rest := done + [' '], rest[1..];
      i := i + 1;
    }
  }

  method CountLead(out: array<char>) returns (lead: nat)
    ensures lead == Lead(out[..])
  {
    lead := 0;
    assert out[0..] == out[..];
    while lead < out.Length && out[lead] == ' '
      invariant lead <= out.Length && Lead(out[..]) == lead + Lead(out[lead..])
    {
      assert out[lead..][1..] == out[lead + 1..];
      lead := lead + 1;
    }
  }

  /** None for a rejected format, NaN or an infinity; |r| is num / den. */
  method FormatNumberElements(num: nat, den: nat, neg: bool, isNaN: bool, format: string) returns (r: Option<string>)
    requires den > 0
    ensures r == if Parse(format).None? || isNaN then None
      else Some(Print(Parse(format).value, Rounded(num, den, Parse(format).value.fracDigits), neg))
  {
    var parsed := ParseNumberFormat(format);
    if parsed.None? || isNaN { return None; }
    hide Parse, Print, Pow10;
    var q := RoundedQuotient(num * Pow10(parsed.value.fracDigits), den);
    var out := PrintRounded(parsed.value, q, neg);
    return Some(out);
  }

  method PrintRounded(f: Format, q: nat, neg: bool) returns (s: string)
    ensures s == Print(f, q, neg)
  {
    var digits := PadDigits(Decimal(q), f.fracDigits + 1);
    var fracStr := digits[|digits| - f.fracDigits..];
    var intStr := TrimLeft(digits[..|digits| - f.fracDigits]);
    var intZero := intStr == "";
    var overflow := |intStr| > f.intDigits;
    var intOut := FillInteger(f, intStr, overflow, intZero);
    BlankLeading(intOut);
    var lead := CountLead(intOut);
    hide Decimal, TrimLeft, Fill, Blanked, Lead, TrimRight;
    assert intOut[..] == IntOut(f, q);
    var number := intOut[..][lead..];
    if f.hasPoint {
      number := number + (['.'] + if overflow then Repeat('#', f.fracDigits) else fracStr);
    } else {
      assert number + "" == number;
    }
    assert number == Body(f, q);
    if f.fm && f.hasPoint && !overflow { number := TrimRight(number); }
    assert number == Number(f, q);
    s := (if f.fm then "" else Repeat(' ', lead)) + BeforeNumber(f, neg) + f.currency + number + AfterNumber(f, neg);
    if f.blankZero && intZero { s := Repeat(' ', |s|); }
  }

  // ----- the width -----

  /** Without FM the width of the text comes from the format alone. */
  function Width(f: Format): nat {
    |f.intElems| + (if f.hasPoint then 1 + f.fracDigits else 0) + (if f.sign == PR then 2 else 1) + |f.currency|
  }

  lemma FixedWidth(f: Format, q: nat, neg: bool)
    requires !f.fm
    ensures |Print(f, q, neg)| == Width(f)
  {
    hide IntOut, FracOut, Lead, Overflows, TrimRight;
  }

  // ----- reading the number back -----

  function DigitsIn(s: string): (r: string)
    ensures AllDigits(r)
  {
    if s == [] then "" else DigitsIn(s[..|s| - 1]) + if Digit(s[|s| - 1]) then [s[|s| - 1]] else ""
  }

  function BeforePoint(s: string): string {
    if s == [] || s[0] == '.' then "" else [s[0]] + BeforePoint(s[1..])
  }

  function AfterPoint(s: string): string {
    if s == [] then "" else if s[0] == '.' then s[1..] else AfterPoint(s[1..])
  }

  /** The number a text shows, in units of 10^-frac. */
  function ReadNumber(s: string, frac: nat): nat {
    var t := DigitsIn(AfterPoint(s));
    ReadDecimal(DigitsIn(BeforePoint(s))) * Pow10(frac) + ReadDecimal(t + Zeros(if |t| <= frac then frac - |t| else 0))
  }

  lemma DigitsInSnoc(s: string, c: char)
    ensures DigitsIn(s + [c]) == DigitsIn(s) + if Digit(c) then [c] else ""
  {
    assert (s + [c])[..|s|] == s;
  }

  lemma {:induction false} DigitsInConcat(s: string, t: string)
    ensures DigitsIn(s + t) == DigitsIn(s) + DigitsIn(t)
    decreases |t|
  {
    if t == [] {
      assert s + t == s;
    } else {
      var n := |t| - 1;
      DigitsInConcat(s, t[..n]);
      assert s + t == (s + t[..n]) + [t[n]];
      DigitsInSnoc(s + t[..n], t[n]);
    }
  }

  lemma {:induction false} DigitsInAll(s: string)
    requires AllDigits(s)
    ensures DigitsIn(s) == s
    decreases |s|
  {
    if s != [] {
      DigitsInAll(s[..|s| - 1]);
      assert s == s[..|s| - 1] + [s[|s| - 1]];
    }
  }

  predicate NoDigit(s: string) { forall i :: 0 <= i < |s| ==> !Digit(s[i]) }

  lemma {:induction false} DigitsInNone(s: string)
    requires NoDigit(s)
    ensures DigitsIn(s) == ""
    decreases |s|
  {
    if s != [] { DigitsInNone(s[..|s| - 1]); }
  }

  lemma {:induction false} SplitPoint(a: string, b: string)
    requires '.' !in a
    ensures BeforePoint(a + ['.'] + b) == a && AfterPoint(a + ['.'] + b) == b
    decreases |a|
  {
    if a == [] {
      assert (a + ['.'] + b)[1..] == b;
    } else {
      assert (a + ['.'] + b)[1..] == a[1..] + ['.'] + b;
      SplitPoint(a[1..], b);
    }
  }

  lemma {:induction false} NoPoint(a: string)
    requires '.' !in a
    ensures BeforePoint(a) == a && AfterPoint(a) == ""
    decreases |a|
  {
    if a != [] { NoPoint(a[1..]); }
  }

  // ----- the integer part holds the digits of the number -----

  lemma CountPrefix(elems: string, i: nat)
    requires 0 < i <= |elems|
    ensures CountDigits(elems[..i]) == CountDigits(elems[..i - 1]) + if Element09(elems[i - 1]) then 1 else 0
  {
    assert elems[..i][..i - 1] == elems[..i - 1];
  }

  lemma FillReadSeparator(f: Format, i: nat, rem: string, zero: bool)
    requires 0 < i <= |f.intElems| && f.intElems[i - 1] == ','
    ensures DigitsIn(Fill(f, i, rem, false, zero)) == DigitsIn(Fill(f, i - 1, rem, false, zero))
  {
    FillStep(f, i, rem, false, zero);
    DigitsInSnoc(Fill(f, i - 1, rem, false, zero), ',');
    hide Fill, DigitsIn;
  }

  /** Printed from right to left, the digits are those of the number after some zeros. */
  lemma {:induction false} FillRead(f: Format, i: nat, rem: string, zero: bool)
    requires Elements(f) && i <= |f.intElems| && AllDigits(rem) && |rem| <= CountDigits(f.intElems[..i])
    ensures ReadDecimal(DigitsIn(Fill(f, i, rem, false, zero))) == ReadDecimal(rem)
    decreases i
  {
    if i == 0 {
      assert rem == [];
    } else {
      CountPrefix(f.intElems, i);
      ElementAt(f, i - 1);
      hide Fill, CountDigits, DigitsIn, ReadDecimal, Elements;
      if f.intElems[i - 1] == ',' {
        FillRead(f, i - 1, rem, zero);
        FillReadSeparator(f, i, rem, zero);
      } else {
        FillRead(f, i - 1, Init(rem), zero);
        FillReadDigit(f, i, rem, zero);
      }
    }
  }

  lemma ElementAt(f: Format, i: nat)
    requires Elements(f) && i < |f.intElems|
    ensures Element09(f.intElems[i]) || f.intElems[i] == ','
  {}

  lemma FillStep(f: Format, i: nat, rem: string, overflow: bool, zero: bool)
    requires 0 < i <= |f.intElems|
    ensures f.intElems[i - 1] == ',' ==> Fill(f, i, rem, overflow, zero) == Fill(f, i - 1, rem, overflow, zero) + [',']
    ensures f.intElems[i - 1] != ',' ==>
      Fill(f, i, rem, overflow, zero)
      == Fill(f, i - 1, Init(rem), overflow, zero) + [FillChar(f, i - 1, rem, overflow, zero)]
  {}

  lemma FillReadDigit(f: Format, i: nat, rem: string, zero: bool)
    requires 0 < i <= |f.intElems| && f.intElems[i - 1] != ',' && AllDigits(rem)
    requires ReadDecimal(DigitsIn(Fill(f, i - 1, Init(rem), false, zero))) == ReadDecimal(Init(rem))
    ensures ReadDecimal(DigitsIn(Fill(f, i, rem, false, zero))) == ReadDecimal(rem)
  {
    FillStep(f, i, rem, false, zero);
    var s, c := Fill(f, i - 1, Init(rem), false, zero), FillChar(f, i - 1, rem, false, zero);
    hide Fill;
    DigitsInSnoc(s, c);
    if Digit(c) {
      ReadSnoc(DigitsIn(s), c);
    } else {
      assert DigitsIn(s) + "" == DigitsIn(s);
    }
  }

  predicate IntChar(c: char) { Digit(c) || c == ',' || c == ' ' || c == '#' }

  lemma CommaFacts()
    ensures IntChar(',') && !Element09(',')
  {}

  lemma FillCharFacts(f: Format, i: nat, rem: string, overflow: bool, zero: bool)
    requires i < |f.intElems| && AllDigits(rem)
    ensures IntChar(FillChar(f, i, rem, overflow, zero))
    ensures FillChar(f, i, rem, overflow, zero) == '#' <==> overflow
    ensures AllDigits(Init(rem))
  {}

  lemma {:induction false} FillChars(f: Format, i: nat, rem: string, overflow: bool, zero: bool)
    requires Elements(f) && i <= |f.intElems| && AllDigits(rem)
    ensures forall j :: 0 <= j < i ==> IntChar(Fill(f, i, rem, overflow, zero)[j])
    ensures '#' in Fill(f, i, rem, overflow, zero) <==> overflow && CountDigits(f.intElems[..i]) > 0
    decreases i
  {
    if i > 0 {
      FillCharFacts(f, i - 1, rem, overflow, zero);
      hide Fill, CountDigits, FillChar, FirstZero, IntChar;
      CommaFacts();
      CountPrefix(f.intElems, i);
      FillStep(f, i, rem, overflow, zero);
      FillChars(f, i - 1, if f.intElems[i - 1] == ',' then rem else Init(rem), overflow, zero);
    }
  }

  lemma {:induction false} BlankedKeeps(s: string)
    ensures DigitsIn(Blanked(s)) == DigitsIn(s)
    ensures '#' in Blanked(s) <==> '#' in s
    ensures forall j :: 0 <= j < |s| ==> Blanked(s)[j] == s[j] || Blanked(s)[j] == ' '
    decreases |s|
  {
    if s != [] && (s[0] == ',' || s[0] == ' ') {
      var t := s[1..];
      BlankedKeeps(t);
      DigitsInConcat([s[0]], t);
      DigitsInConcat([' '], Blanked(t));
      DigitsInNone([s[0]]);
      DigitsInNone([' ']);
      assert s == [s[0]] + t;
      hide DigitsIn;
    }
  }

  lemma {:induction false} LeadBlank(s: string)
    ensures s == Repeat(' ', Lead(s)) + s[Lead(s)..]
    decreases |s|
  {
    if s != [] && s[0] == ' ' {
      LeadBlank(s[1..]);
      var n := Lead(s[1..]);
      assert Repeat(' ', n + 1) == [' '] + Repeat(' ', n);
      assert s[1..][n..] == s[n + 1..];
      assert s == [' '] + s[1..];
    }
  }

  // ----- the fraction -----

  lemma {:induction false} TrimRightPoint(a: string, b: string)
    ensures TrimRight(a + ['.'] + b) == a + ['.'] + TrimRight(b)
    decreases |b|
  {
    var s := a + ['.'] + b;
    if b != [] && b[|b| - 1] == '0' {
      assert s[..|s| - 1] == a + ['.'] + b[..|b| - 1];
      TrimRightPoint(a, b[..|b| - 1]);
    } else {
      assert s[|s| - 1] == if b == [] then '.' else b[|b| - 1];
    }
  }

  lemma {:induction false} TrimRightZeros(b: string)
    requires AllDigits(b)
    ensures AllDigits(TrimRight(b)) && TrimRight(b) + Zeros(|b| - |TrimRight(b)|) == b
    decreases |b|
  {
    if b != [] && b[|b| - 1] == '0' {
      var c := b[..|b| - 1];
      TrimRightZeros(c);
      var n := |c| - |TrimRight(c)|;
      assert Zeros(n + 1) == Zeros(n) + ['0'];
      assert b == c + ['0'];
    }
  }

  // ----- the parts of the printed text -----

  function IntBody(f: Format, q: nat): string { IntOut(f, q)[Lead(IntOut(f, q))..] }

  function FracBody(f: Format, q: nat): string {
    if f.fm && !Overflows(f, q) then TrimRight(FracOut(f, q)) else FracOut(f, q)
  }

  function Prefix(f: Format, q: nat, neg: bool): string {
    (if f.fm then "" else Repeat(' ', Lead(IntOut(f, q)))) + BeforeNumber(f, neg) + f.currency
  }

  predicate IntChars(s: string) { forall j :: 0 <= j < |s| ==> IntChar(s[j]) }

  lemma IntOutFacts(f: Format, q: nat)
    requires Elements(f)
    ensures IntChars(IntOut(f, q))
    ensures '#' in IntOut(f, q) <==> Overflows(f, q) && f.intDigits > 0
    ensures !Overflows(f, q) ==>
      && AllDigits(IntText(q, f.fracDigits))
      && ReadDecimal(DigitsIn(IntOut(f, q))) == ReadDecimal(IntText(q, f.fracDigits))
  {
    var n := |f.intElems|;
    var s := IntText(q, f.fracDigits);
    var fill := Fill(f, n, s, |s| > f.intDigits, s == "");
    assert f.intElems[..n] == f.intElems;
    assert f.intDigits == CountDigits(f.intElems);
    hide IntText, Fill, CountDigits, DigitsIn, ReadDecimal, FracText, Elements, Blanked, Pow10, AllDigits;
    DigitsRead(q, f.fracDigits);
    FillChars(f, n, s, |s| > f.intDigits, s == "");
    BlankedKeeps(fill);
    if |s| <= f.intDigits { FillRead(f, n, s, s == ""); }
  }

  lemma IntBodyFacts(f: Format, q: nat)
    ensures DigitsIn(IntBody(f, q)) == DigitsIn(IntOut(f, q))
    ensures '#' in IntBody(f, q) <==> '#' in IntOut(f, q)
    ensures IntChars(IntOut(f, q)) ==> IntChars(IntBody(f, q))
  {
    hide IntOut, Lead, DigitsIn;
    var s := IntOut(f, q);
    var n := Lead(s);
    LeadBlank(s);
    DigitsInConcat(Repeat(' ', n), s[n..]);
    DigitsInNone(Repeat(' ', n));
  }

  /** A text with no digit, point, overflow mark or minus sign. */
  predicate Plain(s: string) {
    NoDigit(s) && '.' !in s && '#' !in s && '-' !in s && '<' !in s
  }

  lemma CurrencyPlain(f: Format)
    requires Elements(f)
    ensures Plain(f.currency)
  {}

  predicate SignText(s: string) { NoDigit(s) && '.' !in s && '#' !in s }

  lemma SignTexts(f: Format, neg: bool)
    ensures SignText(BeforeNumber(f, neg)) && SignText(AfterNumber(f, neg))
    ensures var b, a := BeforeNumber(f, neg), AfterNumber(f, neg);
      neg <==> '-' in b || '<' in b || '-' in a || '<' in a
  {}

  lemma PrefixFacts(f: Format, q: nat, neg: bool)
    requires Elements(f)
    ensures SignText(Prefix(f, q, neg))
    ensures '-' in Prefix(f, q, neg) <==> '-' in BeforeNumber(f, neg)
    ensures '<' in Prefix(f, q, neg) <==> '<' in BeforeNumber(f, neg)
  {
    CurrencyPlain(f);
    SignTexts(f, neg);
    hide BeforeNumber, AfterNumber, IntOut, Lead, Elements;
  }

  lemma NumberParts(f: Format, q: nat)
    ensures Number(f, q) == IntBody(f, q) + if f.hasPoint then ['.'] + FracBody(f, q) else ""
  {
    hide IntOut, Lead, FracOut, Overflows, TrimRight;
    var a, b := IntBody(f, q), FracOut(f, q);
    if f.hasPoint {
      assert Body(f, q) == a + ['.'] + b;
      TrimRightPoint(a, b);
      assert a + ['.'] + FracBody(f, q) == a + (['.'] + FracBody(f, q));
    }
  }

  lemma PrintedParts(f: Format, q: nat, neg: bool)
    ensures f.hasPoint ==>
      Printed(f, q, neg) == (Prefix(f, q, neg) + IntBody(f, q)) + ['.'] + (FracBody(f, q) + AfterNumber(f, neg))
    ensures !f.hasPoint ==> Printed(f, q, neg) == Prefix(f, q, neg) + IntBody(f, q) + AfterNumber(f, neg)
  {
    NumberParts(f, q);
    hide IntOut, Lead, FracBody, IntBody, BeforeNumber, AfterNumber, Number;
    var p, a, b, c := Prefix(f, q, neg), IntBody(f, q), FracBody(f, q), AfterNumber(f, neg);
    assert Printed(f, q, neg) == p + Number(f, q) + c;
    if f.hasPoint {
      assert p + (a + (['.'] + b)) + c == (p + a) + ['.'] + (b + c);
    } else {
      assert a + "" == a;
    }
  }

  lemma FracBodyFacts(f: Format, q: nat)
    ensures !Overflows(f, q) ==>
      AllDigits(FracBody(f, q)) && AllDigits(FracText(q, f.fracDigits)) && |FracBody(f, q)| <= f.fracDigits
    ensures !Overflows(f, q) ==> FracBody(f, q) + Zeros(f.fracDigits - |FracBody(f, q)|) == FracText(q, f.fracDigits)
    ensures Overflows(f, q) ==> FracBody(f, q) == Repeat('#', f.fracDigits)
  {
    DigitsRead(q, f.fracDigits);
    hide IntText, FracText, TrimRight, ReadDecimal, Pow10;
    if !Overflows(f, q) {
      TrimRightZeros(FracOut(f, q));
      assert FracOut(f, q) + Zeros(0) == FracOut(f, q);
    }
  }

  // ----- what a printed text shows -----

  lemma ReadsParts(a: string, b: string, c: string, frac: nat)
    requires '.' !in a && AllDigits(b) && NoDigit(c) && |b| <= frac
    ensures ReadNumber(a + ['.'] + (b + c), frac)
      == ReadDecimal(DigitsIn(a)) * Pow10(frac) + ReadDecimal(b + Zeros(frac - |b|))
  {
    SplitPoint(a, b + c);
    DigitsInConcat(b, c);
    DigitsInAll(b);
    DigitsInNone(c);
    hide *;
    assert DigitsIn(b + c) == b;
    ReadNumberAt(a + ['.'] + (b + c), a, b, frac);
  }

  lemma ReadNumberAt(s: string, a: string, b: string, frac: nat)
    requires BeforePoint(s) == a && DigitsIn(AfterPoint(s)) == b && |b| <= frac
    ensures AllDigits(b)
    ensures ReadNumber(s, frac) == ReadDecimal(DigitsIn(a)) * Pow10(frac) + ReadDecimal(b + Zeros(frac - |b|))
  {}

  lemma ReadsInteger(a: string)
    requires '.' !in a
    ensures ReadNumber(a, 0) == ReadDecimal(DigitsIn(a))
  {
    NoPoint(a);
    assert DigitsIn("") == "" && Zeros(0) == "";
    assert Pow10(0) == 1 && ReadDecimal("" + "") == 0;
    hide BeforePoint, AfterPoint, DigitsIn, ReadDecimal;
  }

  lemma NoPointIn(p: string, a: string)
    requires SignText(p) && IntChars(a)
    ensures '.' !in p + a
  {}

  lemma DigitsInBetween(p: string, a: string)
    requires NoDigit(p)
    ensures DigitsIn(p + a) == DigitsIn(a)
  {
    DigitsInConcat(p, a);
    DigitsInNone(p);
  }

  /** What comes before the fraction: no point, and the digits of the integer part. */
  lemma HeadFacts(f: Format, q: nat, neg: bool)
    requires Elements(f) && !Overflows(f, q)
    ensures var a := Prefix(f, q, neg) + IntBody(f, q);
      && '.' !in a && AllDigits(IntText(q, f.fracDigits))
      && ReadDecimal(DigitsIn(a)) == ReadDecimal(IntText(q, f.fracDigits))
  {
    PrefixFacts(f, q, neg);
    IntOutFacts(f, q);
    IntBodyFacts(f, q);
    hide *;
    NoPointIn(Prefix(f, q, neg), IntBody(f, q));
    SignPlain(Prefix(f, q, neg));
    DigitsInBetween(Prefix(f, q, neg), IntBody(f, q));
  }

  lemma PointReadsBack(f: Format, q: nat, neg: bool)
    requires Elements(f) && !Overflows(f, q) && f.hasPoint
    ensures ReadNumber(Printed(f, q, neg), f.fracDigits) == q
  {
    HeadFacts(f, q, neg);
    SignTexts(f, neg);
    FracBodyFacts(f, q);
    PrintedParts(f, q, neg);
    DigitsRead(q, f.fracDigits);
    hide *;
    var a, b, c := Prefix(f, q, neg) + IntBody(f, q), FracBody(f, q), AfterNumber(f, neg);
    SignPlain(c);
    ReadsParts(a, b, c, f.fracDigits);
  }

  /** A number that fits is read back exactly, with or without FM. */
  lemma ReadsBack(f: Format, q: nat, neg: bool)
    requires WellFormed(f) && !Overflows(f, q) && !Blanks(f, q)
    ensures ReadNumber(Print(f, q, neg), f.fracDigits) == q
  {
    assert Print(f, q, neg) == Printed(f, q, neg);
    assert f.fracDigits > 0 ==> f.hasPoint;
    hide Print, Printed, Overflows, Blanks, Elements, ReadNumber, AfterNumber, IntText, ReadDecimal;
    if f.hasPoint {
      PointReadsBack(f, q, neg);
    } else {
      HeadFacts(f, q, neg);
      SignTexts(f, neg);
      PrintedParts(f, q, neg);
      WholeReadsBack(f, q, Prefix(f, q, neg) + IntBody(f, q), AfterNumber(f, neg));
    }
  }

  lemma SignPlain(s: string)
    requires SignText(s)
    ensures NoDigit(s) && '.' !in s
  {}

  lemma WholeReadsBack(f: Format, q: nat, a: string, c: string)
    requires '.' !in a && SignText(c) && f.fracDigits == 0
    requires AllDigits(IntText(q, 0)) && ReadDecimal(DigitsIn(a)) == ReadDecimal(IntText(q, 0))
    ensures ReadNumber(a + c, 0) == q
  {
    hide *;
    SignPlain(c);
    DigitsInConcat(a, c);
    DigitsInNone(c);
    NoFraction(q);
    assert DigitsIn(a) + "" == DigitsIn(a);
    ReadsInteger(a + c);
  }

  lemma NoFraction(q: nat)
    ensures AllDigits(IntText(q, 0)) && ReadDecimal(IntText(q, 0)) == q
  {
    DigitsRead(q, 0);
    assert FracText(q, 0) == "" && ReadDecimal("") == 0 && Pow10(0) == 1;
    hide IntText, FracText, ReadDecimal, Pow10;
  }

  lemma PrintedHas(f: Format, q: nat, neg: bool, c: char)
    requires c != '.'
    ensures c in Printed(f, q, neg) <==>
      c in Prefix(f, q, neg) || c in IntBody(f, q) || (f.hasPoint && c in FracBody(f, q)) || c in AfterNumber(f, neg)
  {
    PrintedParts(f, q, neg);
    hide *;
  }

  lemma OverflowHash(f: Format, q: nat, neg: bool)
    requires WellFormed(f) && Overflows(f, q)
    ensures '#' in Printed(f, q, neg)
  {
    IntOutFacts(f, q);
    IntBodyFacts(f, q);
    FracBodyFacts(f, q);
    PrintedHas(f, q, neg, '#');
    assert f.intDigits > 0 || (f.hasPoint && f.fracDigits > 0);
    if f.intDigits == 0 { assert Repeat('#', f.fracDigits)[0] == '#'; }
    hide *;
  }

  lemma FitsNoHash(f: Format, q: nat, neg: bool)
    requires Elements(f) && !Overflows(f, q)
    ensures '#' !in Printed(f, q, neg)
  {
    PrefixFacts(f, q, neg);
    SignTexts(f, neg);
    IntOutFacts(f, q);
    IntBodyFacts(f, q);
    FracBodyFacts(f, q);
    PrintedHas(f, q, neg, '#');
    hide IntText, FracText, IntOut, IntBody, FracBody, Prefix, AfterNumber, BeforeNumber, Printed;
    hide DigitsIn, ReadDecimal, Overflows, Elements;
    NoHash(FracBody(f, q));
  }

  /** The text shows # exactly when the rounded number has more integer digits than the format. */
  lemma HashIffOverflow(f: Format, q: nat, neg: bool)
    requires WellFormed(f)
    ensures '#' in Print(f, q, neg) <==> q >= Pow10(f.intDigits + f.fracDigits)
  {
    LongIff(q, f.fracDigits, f.intDigits);
    if Overflows(f, q) { OverflowHash(f, q, neg); } else { FitsNoHash(f, q, neg); }
    hide Printed, IntText, Pow10, Elements;
  }

  lemma NoHash(s: string)
    requires AllDigits(s)
    ensures '#' !in s
  {}

  /** The sign of a printed number is the sign of the number, even where it rounds to zero. */
  lemma SignShown(f: Format, q: nat, neg: bool)
    requires WellFormed(f) && !Blanks(f, q)
    ensures neg <==> '-' in Print(f, q, neg) || '<' in Print(f, q, neg)
  {
    PrintedHas(f, q, neg, '-');
    PrintedHas(f, q, neg, '<');
    NumberUnsigned(f, q);
    PrefixFacts(f, q, neg);
    SignTexts(f, neg);
    assert Print(f, q, neg) == Printed(f, q, neg);
    hide *;
  }

  lemma NumberUnsigned(f: Format, q: nat)
    requires Elements(f)
    ensures '-' !in IntBody(f, q) && '<' !in IntBody(f, q) && '-' !in FracBody(f, q) && '<' !in FracBody(f, q)
  {
    IntOutFacts(f, q);
    IntBodyFacts(f, q);
    FracBodyFacts(f, q);
    hide IntText, FracText, IntOut, IntBody, FracBody, DigitsIn, ReadDecimal, Elements, Overflows;
    NoSign(IntBody(f, q));
    if !Overflows(f, q) { NoSign(FracBody(f, q)); }
  }

  lemma NoSign(s: string)
    requires IntChars(s) || AllDigits(s)
    ensures '-' !in s && '<' !in s
  {}

  /** B shows nothing exactly for numbers below one after rounding, whatever their fraction. */
  lemma BlanksIff(f: Format, q: nat, neg: bool)
    requires WellFormed(f) && f.blankZero
    ensures Blanks(f, q) <==> q < Pow10(f.fracDigits)
    ensures Blanks(f, q) ==> forall i :: 0 <= i < |Print(f, q, neg)| ==> Print(f, q, neg)[i] == ' '
  {
    LongIff(q, f.fracDigits, 0);
    hide IntText, Printed, Pow10;
  }
}

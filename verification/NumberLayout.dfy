/** Where each digit, separator and sign of a printed number stands, said without the way it is printed. */
module NumberLayout {
  import opened Sequences
  import opened Arithmetic
  import opened Decimals
  import opened NumberFormat
  import opened NumberPrinting

  // ----- the integer part -----

  /** The power of ten of the digit element at i: the units of the fraction and the digit elements to its right. */
  function Weight(f: Format, i: nat): nat
    requires i < |f.intElems|
  {
    f.fracDigits + CountDigits(f.intElems[i + 1..])
  }

  /** The digit of a number at a power of ten. */
  function DigitAt(q: nat, weight: nat): char { DigitChar(q / Pow10(weight) % 10) }

  /** The number has a digit at that power of ten. */
  predicate Reaches(q: nat, weight: nat) { q >= Pow10(weight) }

  predicate ZeroUpTo(f: Format, i: nat) { i < |f.intElems| && '0' in f.intElems[..i + 1] }

  /** The digit element at i shows a digit. */
  predicate ShowsDigit(f: Format, q: nat, i: nat)
    requires i < |f.intElems|
  {
    Element09(f.intElems[i]) &&
    (|| ZeroUpTo(f, i) || Reaches(q, Weight(f, i))
     || (i == |f.intElems| - 1 && f.fracDigits == 0 && q == 0))
  }

  /** What stands for the element at i. */
  function CharAt(f: Format, q: nat, i: nat): char
    requires i < |f.intElems|
  {
    if Element09(f.intElems[i]) then
      if !Fits(f, q) then '#' else if ShowsDigit(f, q, i) then DigitAt(q, Weight(f, i)) else ' '
    else if SomethingBefore(f, q, i) then ','
    else ' '
  }

  /** A digit, or #, is shown to the left of i. */
  predicate SomethingBefore(f: Format, q: nat, i: nat)
    requires i < |f.intElems|
  {
    exists j :: 0 <= j < i && Element09(f.intElems[j]) && (!Fits(f, q) || ShowsDigit(f, q, j))
  }

  /** The rounded number has no more integer digits than the format. */
  predicate Fits(f: Format, q: nat) { q < Pow10(f.intDigits + f.fracDigits) }

  // ----- the digits of a number, one by one -----

  lemma Pow10Positive(n: nat)
    ensures Pow10(n) > 0
  {}

  /** The digit k places from the right of a text of digits. */
  lemma {:induction false} DigitFromRight(s: string, k: nat)
    requires AllDigits(s) && k < |s|
    ensures s[|s| - 1 - k] == DigitAt(ReadDecimal(s), k)
    decreases k
  {
    var n := |s| - 1;
    var head, v, last := s[..n], ReadDecimal(s), DigitValue(s[n]);
    assert v == ReadDecimal(head) * 10 + last;
    if k == 0 {
      ModUnique(v, 10, ReadDecimal(head), last);
      assert Pow10(0) == 1;
    } else {
      DigitFromRight(head, k - 1);
      assert head[|head| - 1 - (k - 1)] == s[|s| - 1 - k];
      ModUnique(v, 10, ReadDecimal(head), last);
      DivTwice(v, Pow10(k - 1));
    }
  }

  lemma DivTwice(v: nat, p: nat)
    requires p > 0
    ensures v / (10 * p) == v / 10 / p
  {
    var a, r := v / 10, v % 10;
    var b, u := a / p, a % p;
    assert a == b * p + u && v == a * 10 + r;
    assert v == b * (10 * p) + (u * 10 + r);
    ModUnique(v, 10 * p, b, u * 10 + r);
  }

  /** Digits above the fraction are those of the integer part. */
  lemma AboveFraction(q: nat, a: nat, b: nat, frac: nat, k: nat)
    requires q == a * Pow10(frac) + b && b < Pow10(frac)
    ensures q / Pow10(frac + k) == a / Pow10(k)
  {
    Pow10Positive(k);
    Pow10Add(k, frac);
    var p, r := Pow10(k), Pow10(frac);
    hide Pow10;
    var c, u := a / p, a % p;
    assert a == c * p + u;
    assert c * p * r == c * (p * r);
    assert q == c * (p * r) + (u * r + b);
    MulLe(u + 1, p, r);
    assert (u + 1) * r == u * r + r;
    ModUnique(q, p * r, c, u * r + b);
  }

  lemma Below(q: nat, p: nat)
    requires q < p
    ensures q / p == 0
  {}

  /** The digits of the integer part stand for their powers of ten, and there is none above them. */
  lemma IntDigit(q: nat, frac: nat, k: nat)
    ensures Reaches(q, frac + k) <==> k < |IntText(q, frac)|
    ensures k < |IntText(q, frac)| ==> IntText(q, frac)[|IntText(q, frac)| - 1 - k] == DigitAt(q, frac + k)
    ensures k >= |IntText(q, frac)| ==> DigitAt(q, frac + k) == '0'
  {
    DigitsRead(q, frac);
    LongIff(q, frac, k);
    var s, u := IntText(q, frac), FracText(q, frac);
    hide IntText, FracText, Pow10, ReadDecimal;
    ReadBelow(u);
    AboveFraction(q, ReadDecimal(s), ReadDecimal(u), frac, k);
    if k < |s| { DigitFromRight(s, k); } else { Below(q, Pow10(frac + k)); }
  }

  // ----- filling -----

  /** The text without its last k characters. */
  function Drop(s: string, k: nat): string { if k >= |s| then "" else s[..|s| - k] }

  lemma CountLast(elems: string, i: nat, n: nat)
    requires i < n <= |elems|
    ensures CountDigits(elems[i..n]) == CountDigits(elems[i..n - 1]) + if Element09(elems[n - 1]) then 1 else 0
  {
    assert elems[i..n][..n - 1 - i] == elems[i..n - 1];
  }

  lemma DropInit(s: string, k: nat)
    ensures Drop(Init(s), k) == Drop(s, k + 1)
  {}

  lemma DropNothing(s: string)
    ensures CountDigits([]) == 0 && Drop(s, 0) == s
  {}

  /** The character an element is filled with, by the number of digit elements to its right. */
  lemma {:induction false} FillAt(f: Format, n: nat, rem: string, overflow: bool, zero: bool, i: nat)
    requires Elements(f) && i < n <= |f.intElems|
    ensures Fill(f, n, rem, overflow, zero)[i] ==
      if f.intElems[i] == ',' then ','
      else FillChar(f, i, Drop(rem, CountDigits(f.intElems[i + 1..n])), overflow, zero)
    decreases n
  {
    hide Fill, FillChar, CountDigits, Elements, Drop, Element09;
    FillStep(f, n, rem, overflow, zero);
    ElementAt(f, n - 1);
    CommaFacts();
    if i == n - 1 {
      assert f.intElems[i + 1..n] == [];
      DropNothing(rem);
    } else {
      CountLast(f.intElems, i + 1, n);
      if f.intElems[n - 1] == ',' {
        FillAt(f, n - 1, rem, overflow, zero, i);
      } else {
        FillAt(f, n - 1, Init(rem), overflow, zero, i);
        DropInit(rem, CountDigits(f.intElems[i + 1..n - 1]));
      }
    }
  }

  predicate Filler(c: char) { c == ',' || c == ' ' }

  lemma {:induction false} BlankedAt(s: string, i: nat)
    requires i < |s|
    ensures Blanked(s)[i] == if forall j :: 0 <= j <= i ==> Filler(s[j]) then ' ' else s[i]
    decreases |s|
  {
    if Filler(s[0]) && i > 0 {
      BlankedAt(s[1..], i - 1);
      assert forall j :: 1 <= j <= i ==> s[j] == s[1..][j - 1];
      assert (forall j :: 0 <= j <= i ==> Filler(s[j])) <==> (forall j :: 0 <= j <= i - 1 ==> Filler(s[1..][j]));
    }
  }

  /** What a digit element is filled with is what it should show. */
  lemma FilledChar(f: Format, q: nat, i: nat)
    requires Elements(f) && i < |f.intElems| && Element09(f.intElems[i])
    ensures var s := IntText(q, f.fracDigits);
      FillChar(f, i, Drop(s, CountDigits(f.intElems[i + 1..])), |s| > f.intDigits, s == "") ==
        if !Fits(f, q) then '#' else if ShowsDigit(f, q, i) then DigitAt(q, Weight(f, i)) else ' '
  {
    var k := CountDigits(f.intElems[i + 1..]);
    IntDigit(q, f.fracDigits, k);
    LongIff(q, f.fracDigits, f.intDigits);
    LongIff(q, f.fracDigits, 0);
    FirstZeroUpTo(f, i);
    assert Pow10(0) == 1;
    hide IntText, Pow10, CountDigits, DigitAt, Elements, ZeroUpTo;
  }

  lemma FirstZeroUpTo(f: Format, i: nat)
    requires Elements(f) && i < |f.intElems|
    ensures ZeroUpTo(f, i) <==> f.zeroFrom >= 0 && i >= f.zeroFrom
  {
    var z, head := f.zeroFrom, f.intElems[..i + 1];
    if z >= 0 && i >= z {
      assert head[z] == '0';
    } else if z >= 0 {
      assert forall j :: 0 <= j < |head| ==> head[j] == f.intElems[..z][j];
    } else {
      assert forall j :: 0 <= j < |head| ==> head[j] == f.intElems[j];
    }
  }

  lemma NotFiller(f: Format, q: nat, i: nat)
    requires i < |f.intElems| && Element09(f.intElems[i])
    ensures Filler(CharAt(f, q, i)) <==> Fits(f, q) && !ShowsDigit(f, q, i)
  {
    hide ShowsDigit, Fits, Pow10;
  }

  /** The elements before any blanking. */
  function Filling(f: Format, q: nat): string {
    var s := IntText(q, f.fracDigits);
    Fill(f, |f.intElems|, s, |s| > f.intDigits, s == "")
  }

  lemma FillingAt(f: Format, q: nat, i: nat)
    requires Elements(f) && i < |f.intElems|
    ensures |Filling(f, q)| == |f.intElems|
    ensures f.intElems[i] == ',' <==> !Element09(f.intElems[i])
    ensures Filling(f, q)[i] == if f.intElems[i] == ',' then ',' else CharAt(f, q, i)
  {
    ElementAt(f, i);
    var s := IntText(q, f.fracDigits);
    FillAt(f, |f.intElems|, s, |s| > f.intDigits, s == "", i);
    assert f.intElems[i + 1..|f.intElems|] == f.intElems[i + 1..];
    hide Fill, FillChar, IntText, Drop, CountDigits, Elements, Fits, ShowsDigit, DigitAt;
    if f.intElems[i] != ',' { FilledChar(f, q, i); }
  }

  /** The integer part shows, element by element, what it should. */
  lemma IntOutAt(f: Format, q: nat, i: nat)
    requires Elements(f) && i < |f.intElems|
    ensures IntOut(f, q)[i] == CharAt(f, q, i)
  {
    var t := Filling(f, q);
    assert IntOut(f, q) == Blanked(t);
    forall j | 0 <= j <= i
      ensures |t| == |f.intElems| && t[j] == (if f.intElems[j] == ',' then ',' else CharAt(f, q, j))
        && (f.intElems[j] == ',' <==> !Element09(f.intElems[j]))
    {
      FillingAt(f, q, j);
    }
    forall j | 0 <= j <= i && Element09(f.intElems[j])
      ensures Filler(t[j]) <==> Fits(f, q) && !ShowsDigit(f, q, j)
    {
      NotFiller(f, q, j);
    }
    BlankedAt(t, i);
    hide Filling, IntOut, Blanked, Elements, Fits, ShowsDigit, DigitAt, Element09;
  }

  // ----- the whole text -----

  function IntShown(f: Format, q: nat): (r: string)
    ensures |r| == |f.intElems|
  {
    seq(|f.intElems|, i requires 0 <= i < |f.intElems| => CharAt(f, q, i))
  }

  /** The fraction, digit by digit. */
  function FracShown(f: Format, q: nat): (r: string)
    ensures |r| == f.fracDigits
  {
    seq(f.fracDigits, j requires 0 <= j < f.fracDigits =>
      if Fits(f, q) then DigitAt(q, f.fracDigits - 1 - j) else '#')
  }

  /** The marks before and after the number; without FM a missing mark leaves a blank where it could stand. */
  function Marks(f: Format, neg: bool): (string, string) {
    var none := if f.fm then "" else " ";
    match (f.sign, neg)
    case (Default, true) => ("-", "")
    case (Default, false) => (none, "")
    case (LeadingS, true) => ("-", "")
    case (LeadingS, false) => ("+", "")
    case (TrailingS, true) => ("", "-")
    case (TrailingS, false) => ("", "+")
    case (MI, true) => ("", "-")
    case (MI, false) => ("", none)
    case (PR, true) => ("<", ">")
    case (PR, false) => (none, none)
  }

  /** p is the text without the zeros at its end. */
  predicate Trimmed(p: string, s: string) {
    p <= s && (forall i :: |p| <= i < |s| ==> s[i] == '0') && (p != [] ==> p[|p| - 1] != '0')
  }

  /** The first n characters are blank, and no more. */
  predicate BlankUpTo(s: string, n: nat) {
    n <= |s| && (forall i :: 0 <= i < n ==> s[i] == ' ') && (n < |s| ==> s[n] != ' ')
  }

  /**
   The blanks of the integer part, which FM drops, the mark before the number, the currency, the rest of the integer
   part, the point and the fraction, which FM cuts unless it shows #, and the mark after the number.
   */
  predicate LaidOut(f: Format, q: nat, neg: bool, lead: nat, frac: string, text: string) {
    && BlankUpTo(IntShown(f, q), lead)
    && (if f.fm && Fits(f, q) then Trimmed(frac, FracShown(f, q)) else frac == FracShown(f, q))
    && text == (if f.fm then "" else Repeat(' ', lead)) + Marks(f, neg).0 + f.currency
      + (IntShown(f, q)[lead..] + if f.hasPoint then ['.'] + frac else "") + Marks(f, neg).1
  }

  lemma IntOutShown(f: Format, q: nat)
    requires Elements(f)
    ensures IntOut(f, q) == IntShown(f, q)
  {
    forall i | 0 <= i < |f.intElems| ensures IntOut(f, q)[i] == CharAt(f, q, i) { IntOutAt(f, q, i); }
  }

  lemma FracOutShown(f: Format, q: nat)
    ensures FracOut(f, q) == FracShown(f, q)
  {
    LongIff(q, f.fracDigits, f.intDigits);
    var n := f.fracDigits;
    forall j | 0 <= j < n ensures FracOut(f, q)[j] == FracShown(f, q)[j] {
      if !Overflows(f, q) { FracDigit(q, n, j); }
      hide FracText, IntText, Pow10, DigitAt;
    }
  }

  lemma FracDigit(q: nat, n: nat, j: nat)
    requires j < n
    ensures FracText(q, n)[j] == DigitAt(q, n - 1 - j)
  {
    DigitsOf(q, n);
    var d := Digits(q, n);
    hide Digits, ReadDecimal, Pow10, DigitAt;
    DigitFromRight(d, n - 1 - j);
    assert FracText(q, n)[j] == d[|d| - n + j];
  }

  lemma {:induction false} LeadIs(s: string)
    ensures BlankUpTo(s, Lead(s))
    decreases |s|
  {
    if s != [] && s[0] == ' ' { LeadIs(s[1..]); }
  }

  lemma {:induction false} TrimRightIs(s: string)
    ensures Trimmed(TrimRight(s), s)
    decreases |s|
  {
    if s != [] && s[|s| - 1] == '0' { TrimRightIs(s[..|s| - 1]); }
  }

  lemma MarksAre(f: Format, neg: bool)
    ensures Marks(f, neg) == (BeforeNumber(f, neg), AfterNumber(f, neg))
  {}

  lemma PrintedLayout(f: Format, q: nat, neg: bool)
    requires WellFormed(f)
    ensures LaidOut(f, q, neg, Lead(IntShown(f, q)), FracBody(f, q), Printed(f, q, neg))
  {
    IntOutShown(f, q);
    FracOutShown(f, q);
    LeadIs(IntShown(f, q));
    TrimRightIs(FracOut(f, q));
    MarksAre(f, neg);
    NumberParts(f, q);
    LongIff(q, f.fracDigits, f.intDigits);
    hide IntOut, FracOut, IntShown, FracShown, Marks, BeforeNumber, AfterNumber, TrimRight, Lead, IntText, Pow10;
    hide Number, BlankUpTo, Trimmed, Elements;
  }

  /** The printed text is laid out as the format says; B replaces it by blanks when the integer part is zero. */
  lemma PrintLayout(f: Format, q: nat, neg: bool)
    requires WellFormed(f)
    ensures exists lead, frac, text ::
      && LaidOut(f, q, neg, lead, frac, text)
      && Print(f, q, neg) == if f.blankZero && q < Pow10(f.fracDigits) then Repeat(' ', |text|) else text
  {
    BlankedIff(f, q, neg);
    hide *;
    PrintedLayout(f, q, neg);
  }

  lemma BlankedIff(f: Format, q: nat, neg: bool)
    ensures Print(f, q, neg) ==
      var text := Printed(f, q, neg);
      if f.blankZero && q < Pow10(f.fracDigits) then Repeat(' ', |text|) else text
  {
    LongIff(q, f.fracDigits, 0);
    assert 0 + f.fracDigits == f.fracDigits;
    hide Printed, IntText, Pow10;
  }
}

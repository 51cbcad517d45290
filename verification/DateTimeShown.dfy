/** What each element prints, said without the way it is printed. */
module DateTimeShown {
  import opened Sequences
  import opened Arithmetic
  import opened Decimals
  import opened Ascii
  import opened DateTimeElements
  import opened DateTimeMatching
  import opened DateTimePrinting
  import opened DateTimeParsing
  import opened DateTimeReading

  // ----- numbers and words -----

  /** n digits that read as a number. */
  predicate Reads(s: string, n: nat, v: nat) { |s| == n && AllDigits(s) && ReadDecimal(s) == v }

  /** The number a text of digits reads as. */
  function Value(s: string): nat { if AllDigits(s) then ReadDecimal(s) else 0 }

  predicate Digits(s: string, n: nat) { |s| == n && AllDigits(s) }

  /** n digits that read as the last digits of a number. */
  predicate LastDigits(s: string, n: nat, v: nat) {
    Digits(s, n) && Value(s) <= v && (v - Value(s)) % Pow10(n) == 0
  }

  /** Each letter of the word, the first in the case of the element's first and the others upper if all of its are. */
  predicate Word(raw: string, word: string, s: string) {
    && SameLetters(s, word) && s != [] && raw != []
    && (UpperLetter(s[0]) <==> UpperLetter(raw[0]))
    && forall i :: 0 < i < |s| ==> (UpperLetter(s[i]) <==> forall j :: 0 <= j < |raw| ==> UpperLetter(raw[j]))
  }

  /** The meridian indicator, in lower case when the element starts in lower case. */
  predicate Half(raw: string, s: string, dotted: bool, afternoon: bool) {
    && raw != [] && |s| == (if dotted then 4 else 2)
    && LowerChar(s[0]) == (if afternoon then 'p' else 'a') && LowerChar(s[if dotted then 2 else 1]) == 'm'
    && (dotted ==> s[1] == '.' && s[3] == '.')
    && forall i :: 0 <= i < |s| ==> (UpperLetter(s[i]) <==> s[i] != '.' && !('a' <= raw[0] <= 'z'))
  }

  /** x is v whole units and less than one more. */
  predicate Between(x: nat, v: nat, unit: nat) { v * unit <= x < v * unit + unit }

  predicate Shows(e: Element, raw: string, m: Moment, s: string)
    requires ValidMoment(m)
  {
    var c := m.civil;
    match e
    case YYYY | RRRR => Reads(s, 4, c.year)
    case YYY => LastDigits(s, 3, c.year)
    case YY | RR => LastDigits(s, 2, c.year)
    case Y => LastDigits(s, 1, c.year)
    case Q => Digits(s, 1) && 3 * (Value(s) - 1) < c.month <= 3 * Value(s)
    case MM => Reads(s, 2, c.month)
    case MON => Word(raw, MonthName(c.month)[..3], s)
    case MONTH => Word(raw, MonthName(c.month), s)
    case DD => Reads(s, 2, c.day)
    case DDD => Reads(s, 3, m.yearDay)
    case D => Reads(s, 1, m.weekday + 1)
    case DAY => Word(raw, DayName(m.weekday), s)
    case DY => Word(raw, DayName(m.weekday)[..3], s)
    case HH | HH12 => Digits(s, 2) && 1 <= Value(s) <= 12 && (Value(s) - c.hour) % 12 == 0
    case HH24 => Reads(s, 2, c.hour)
    case MI => Reads(s, 2, c.minute)
    case SS => Reads(s, 2, c.second)
    case SSSSS => Reads(s, 5, (c.hour * 60 + c.minute) * 60 + c.second)
    case AM | PM => Half(raw, s, false, c.hour >= 12)
    case ADotM | PDotM => Half(raw, s, true, c.hour >= 12)
    case FF(n) => Digits(s, n) && Between(c.micro * 1000, Value(s), Pow10(9 - n))
    case TZH => s != [] && s[0] == (if m.offset < 0 then '-' else '+') && Digits(s[1..], 2)
      && Between(Away(m), Value(s[1..]), 3600)
    case TZM => Digits(s, 2) && Value(s) < 60 && Between(Away(m) % 3600, Value(s), 60)
    case YCommaYYY => true
  }

  lemma FixedReads(k: nat, w: nat)
    requires w > 0 && k < Pow10(w)
    ensures Reads(Fixed(k, w), w, k)
  {
    PaddedRead(k, w);
  }

  lemma DecimalReads(k: nat)
    requires k < 10
    ensures Reads(Decimal(k), 1, k)
  {
    DecimalRead(k);
  }

  lemma Rest(k: nat, w: nat, s: string)
    requires Reads(s, w, k % Pow10(w))
    ensures LastDigits(s, w, k)
  {
    var p := Pow10(w);
    hide ReadDecimal, Pow10;
    Whole(k / p, k % p, p);
  }

  lemma Whole(q: nat, r: nat, p: nat)
    requires p > 0
    ensures (q * p + r - r) % p == 0
  {
    assert q * p == q * p + 0;
    ModUnique(q * p, p, q, 0);
  }

  lemma ShowsYear(e: Element, raw: string, m: Moment)
    requires ValidMoment(m) && raw != [] && (e.YYYY? || e.RRRR? || e.YYY? || e.YY? || e.RR? || e.Y?)
    ensures Shows(e, raw, m, Render(e, raw, m))
  {
    Powers();
    var y := m.civil.year;
    hide Pow10, Fixed, Decimal, Reads;
    match e
    case YYYY | RRRR => FixedReads(y, 4);
    case YYY =>
      FixedReads(y % 1000, 3);
      Rest(y, 3, Fixed(y % 1000, 3));
    case YY | RR =>
      FixedReads(y % 100, 2);
      Rest(y, 2, Fixed(y % 100, 2));
    case Y =>
      DecimalReads(y % 10);
      Rest(y, 1, Decimal(y % 10));
  }

  lemma ShowsNumber(e: Element, raw: string, m: Moment)
    requires ValidMoment(m) && raw != []
    requires e.MM? || e.DD? || e.DDD? || e.D? || e.HH24? || e.MI? || e.SS? || e.SSSSS?
    ensures Shows(e, raw, m, Render(e, raw, m))
  {
    Powers();
    var c := m.civil;
    hide Pow10, Fixed, Decimal, Reads;
    match e
    case MM => FixedReads(c.month, 2);
    case DD => FixedReads(c.day, 2);
    case DDD => FixedReads(m.yearDay, 3);
    case D => DecimalReads(m.weekday + 1);
    case HH24 => FixedReads(c.hour, 2);
    case MI => FixedReads(c.minute, 2);
    case SS => FixedReads(c.second, 2);
    case SSSSS => FixedReads(SecondOfDay(c), 5);
  }

  lemma ShowsQuarter(raw: string, m: Moment)
    requires ValidMoment(m) && raw != []
    ensures Shows(Q, raw, m, Render(Q, raw, m))
  {
    var q := (m.civil.month - 1) / 3 + 1;
    DecimalReads(q);
    hide Decimal, ReadDecimal;
    assert 3 * (q - 1) < m.civil.month <= 3 * q;
  }

  lemma ShowsHour(e: Element, raw: string, m: Moment)
    requires ValidMoment(m) && raw != [] && (e.HH? || e.HH12?)
    ensures Shows(e, raw, m, Render(e, raw, m))
  {
    Powers();
    var h := Hour12(m.civil.hour);
    FixedReads(h, 2);
    hide Fixed, ReadDecimal;
    assert 1 <= h <= 12 && (h - m.civil.hour) % 12 == 0;
  }

  lemma ShowsFraction(n: FractionDigits, raw: string, m: Moment)
    requires ValidMoment(m) && raw != []
    ensures Shows(FF(n), raw, m, Render(FF(n), raw, m))
  {
    FractionRead(m.civil.micro, n);
    var x, p := m.civil.micro * 1000, Pow10(9 - n);
    var v := Div(x, p);
    hide Fixed, ReadDecimal, Pow10;
    DivMod(x, p);
    assert Between(x, v, p);
  }

  lemma DivMod(x: nat, p: nat)
    requires p > 0
    ensures Div(x, p) * p <= x < Div(x, p) * p + p
  {
    assert x == x / p * p + x % p;
  }

  lemma ShowsZone(e: Element, raw: string, m: Moment)
    requires ValidMoment(m) && raw != [] && (e.TZH? || e.TZM?)
    ensures Shows(e, raw, m, Render(e, raw, m))
  {
    Powers();
    var a := Away(m);
    var h, r := a / 3600, a % 3600;
    FixedReads(h, 2);
    FixedReads(r / 60, 2);
    var s := Render(e, raw, m);
    hide ReadDecimal, Fixed, Pow10;
    if e.TZH? {
      assert s[1..] == Fixed(h, 2) && Between(a, h, 3600);
    } else {
      assert Between(r, r / 60, 60);
    }
  }

  // ----- names -----

  /** The case of a word printed for an element that is a word itself. */
  lemma WordCase(raw: string, word: string)
    requires |raw| > 1 && (forall j :: 0 <= j < |raw| ==> Letter(raw[j])) && word != []
    requires forall i :: 0 <= i < |word| ==> Letter(word[i])
    ensures Word(raw, word, TextCase(raw, word))
  {
    var s := TextCase(raw, word);
    TextCaseLetters(raw, word);
    if forall j :: 0 <= j < |raw| ==> UpperLetter(raw[j]) {
      assert Upper(raw) == raw;
    } else {
      var j :| 0 <= j < |raw| && !UpperLetter(raw[j]);
      assert Upper(raw)[j] != raw[j];
    }
  }

  lemma DayLetters(d: nat, i: nat)
    requires d < 7 && i < |DayName(d)|
    ensures Letter(DayName(d)[i])
  {}

  lemma ElementLetters(e: Element, raw: string)
    requires SameLetters(raw, Name(e)) && (e.MON? || e.MONTH? || e.DAY? || e.DY?)
    ensures |raw| > 1 && forall j :: 0 <= j < |raw| ==> Letter(raw[j])
  {
    forall j | 0 <= j < |raw| ensures Letter(raw[j]) { assert Letter(Name(e)[j]); }
  }

  lemma ShowsName(e: Element, raw: string, m: Moment)
    requires ValidMoment(m) && SameLetters(raw, Name(e)) && (e.MON? || e.MONTH? || e.DAY? || e.DY?)
    ensures raw != [] && Shows(e, raw, m, Render(e, raw, m))
  {
    ElementLetters(e, raw);
    var month, day := MonthName(m.civil.month), DayName(m.weekday);
    forall i | 0 <= i < |month| ensures Letter(month[i]) { MonthLetters(m.civil.month, i); }
    forall i | 0 <= i < |day| ensures Letter(day[i]) { DayLetters(m.weekday, i); }
    hide TextCase, Word, MonthName, DayName, Letter, Name, SameLetters;
    match e
    case MON => WordCase(raw, month[..3]);
    case MONTH => WordCase(raw, month);
    case DAY => WordCase(raw, day);
    case DY => WordCase(raw, day[..3]);
  }

  lemma ShowsHalf(e: Element, raw: string, m: Moment)
    requires ValidMoment(m) && raw != [] && (e.AM? || e.PM? || e.ADotM? || e.PDotM?)
    ensures Shows(e, raw, m, Render(e, raw, m))
  {}

  /** A format that is one element, spelled in any case, prints what the element shows. */
  lemma OneElement(e: Element, format: string, m: Moment, t: Type)
    requires ValidMoment(m) && SameLetters(format, Name(e)) && !e.YCommaYYY?
    ensures Print(format, m, t).Some? <==> Supports(t, e)
    ensures Supports(t, e) ==> Shows(e, format, m, Print(format, m, t).value)
  {
    PrintsElement(e, format, m, t);
    assert format != [];
    hide Print, Supports, Shows, Render;
    ShowsElement(e, format, m);
  }

  lemma ShowsElement(e: Element, raw: string, m: Moment)
    requires ValidMoment(m) && SameLetters(raw, Name(e)) && !e.YCommaYYY? && raw != []
    ensures Shows(e, raw, m, Render(e, raw, m))
  {
    hide Shows, Render, SameLetters, Name;
    match e
    case YYYY | RRRR | YYY | YY | RR | Y => ShowsYear(e, raw, m);
    case Q => ShowsQuarter(raw, m);
    case MON | MONTH | DAY | DY => ShowsName(e, raw, m);
    case HH | HH12 => ShowsHour(e, raw, m);
    case AM | PM | ADotM | PDotM => ShowsHalf(e, raw, m);
    case FF(n) => ShowsFraction(n, raw, m);
    case TZH | TZM => ShowsZone(e, raw, m);
    case _ => ShowsNumber(e, raw, m);
  }

  lemma PrintsElement(e: Element, format: string, m: Moment, t: Type)
    requires ValidMoment(m) && SameLetters(format, Name(e)) && !e.YCommaYYY?
    ensures format != [] && Print(format, m, t) == if Supports(t, e) then Some(Render(e, format, m)) else None
  {
    hide Render, Supports, Print, FirstPiece, SameLetters;
    NameFits(format, e);
    OnePiece(e, format, m, t);
    if Supports(t, e) {
      PrintPiece(format, m, t);
      assert format[|format|..] == [];
      PrintEnd("", m, t, Render(e, format, m));
    } else {
      NoPiece(format, m, t);
    }
  }

  lemma NameFits(format: string, e: Element)
    requires SameLetters(format, Name(e))
    ensures format != [] && |format| == |Name(e)|
  {
    hide Name;
  }

  lemma NoPiece(format: string, m: Moment, t: Type)
    requires ValidMoment(m) && format != [] && FirstPiece(format, m, t).None?
    ensures Print(format, m, t).None?
  {
    hide FirstPiece;
  }

  lemma OnePiece(e: Element, format: string, m: Moment, t: Type)
    requires ValidMoment(m) && SameLetters(format, Name(e)) && !e.YCommaYYY? && format != []
    ensures FirstPiece(format, m, t)
      == if Supports(t, e) then Some(Piece(Render(e, format, m), |format|)) else None
  {
    hide FirstMatch, PRINT_ELEMENTS, Name, Render, Supports;
    FoundWhole(format, e, false);
    FirstIsLetter(e);
    assert LowerChar(format[0]) == LowerChar(Name(e)[0]);
    assert format[..|format|] == format;
  }

  lemma FirstIsLetter(e: Element)
    ensures 'A' <= Name(e)[0] <= 'Z'
  {}

  // ----- the calendar -----

  /** The first, second and third letters of the names, month by month and day by day. */
  lemma CalendarNames(month: nat, weekday: nat)
    requires 1 <= month <= 12 && weekday < 7
    ensures MonthName(month)[..3]
      == ["JFMAMJJASOND"[month - 1], "aeapauuuecoe"[month - 1], "nbrrynlgptvc"[month - 1]]
    ensures DayName(weekday)[..3] == ["SMTWTFS"[weekday], "uouehra"[weekday], "nneduit"[weekday]]
  {}

  lemma FullNames()
    ensures MonthName(1) == "January" && MonthName(2) == "February" && MonthName(3) == "March"
    ensures MonthName(4) == "April" && MonthName(5) == "May" && MonthName(6) == "June" && MonthName(7) == "July"
    ensures MonthName(8) == "August" && MonthName(9) == "September" && MonthName(10) == "October"
    ensures MonthName(11) == "November" && MonthName(12) == "December"
    ensures DayName(0) == "Sunday" && DayName(1) == "Monday" && DayName(2) == "Tuesday" && DayName(3) == "Wednesday"
    ensures DayName(4) == "Thursday" && DayName(5) == "Friday" && DayName(6) == "Saturday"
  {}

  /** Different days have different texts, whatever the case. */
  lemma DaysDiffer(a: nat, b: nat, short: bool)
    requires a < 7 && b < 7
    requires if short then SameLetters(DayName(a)[..3], DayName(b)[..3]) else SameLetters(DayName(a), DayName(b))
    ensures a == b
  {
    var s, t := DayName(a), DayName(b);
    if short { assert s[..3][0] == s[0] && s[..3][1] == s[1] && t[..3][0] == t[0] && t[..3][1] == t[1]; }
    assert LowerChar(s[0]) == LowerChar(t[0]) && LowerChar(s[1]) == LowerChar(t[1]);
  }

  /** Months other than February alternate between 31 and 30 days, from January to July and again from August on. */
  lemma MonthLengths(year: nat, month: nat)
    requires 1 <= month <= 12
    ensures month != 2 ==> DaysIn(year, month) == 30 + (month + month / 8) % 2
    ensures month == 2 ==> DaysIn(year, month) == if year % (if year % 100 == 0 then 400 else 4) == 0 then 29 else 28
  {}
}

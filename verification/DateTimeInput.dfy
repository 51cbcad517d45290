/** What is read of a text, said without the way it is read. */
module DateTimeInput {
  import opened Sequences
  import opened Arithmetic
  import opened Decimals
  import opened Ascii
  import opened DateTimeElements
  import opened DateTimePrinting
  import opened DateTimeParsing
  import opened DateTimeReading
  import opened DateTimeEscapes
  import opened DateTimeShown

  // ----- the piece of the text a token takes -----

  /** Digits of full width, or where the format marks their end all that follow each other, up to a limit. */
  predicate Run(piece: string, rest: string, delimited: bool, width: nat, max: nat) {
    AllDigits(piece) && if delimited then 1 <= |piece| <= max && (|piece| == max || Ends(rest)) else |piece| == width
  }

  predicate IsMonth(piece: string, month: nat, short: bool) {
    1 <= month <= 12 && SameLetters(piece, MonthText(month, short))
  }

  predicate Taken(e: Element, delimited: bool, piece: string, rest: string) {
    match e
    case YYYY | RRRR => Run(piece, rest, delimited, 4, 5)
    case YYY => Digits(piece, 3)
    case YY | RR => Digits(piece, 2)
    case Y => Digits(piece, 1)
    case YCommaYYY =>
      && 5 <= |piece| <= 6 && piece[|piece| - 4] == ',' && AllDigits(piece[..|piece| - 4])
      && AllDigits(piece[|piece| - 3..])
    case MON | MONTH => exists m :: 1 <= m <= 12 && IsMonth(piece, m, e.MON?)
    case MM | DD | HH24 | MI | SS => Run(piece, rest, delimited, 2, 2)
    case HH | HH12 => Run(piece, rest, delimited, 2, 2) && 1 <= Value(piece) <= 12
    case SSSSS => Run(piece, rest, delimited, 5, 5) && Value(piece) < 24 * 60 * 60
    case FF(n) => Run(piece, rest, delimited, n, n)
    case ADotM | PDotM => SameLetters(piece, "A.M.") || SameLetters(piece, "P.M.")
    case TZH => piece != [] && (piece[0] == '+' || piece[0] == '-' || piece[0] == ' ')
      && Run(piece[1..], rest, delimited, 2, 2)
    case TZM => Run(piece, rest, delimited, 2, 2) && Value(piece) < 60
    case DDD | DAY | DY | D | Q | AM | PM => false
  }

  // ----- the fields it sets -----

  /** The year with the last digits v that has the first digits of this year. */
  function SameStart(now: Today, v: nat, digits: nat): int { now.year - now.year % Pow10(digits) + v }

  /** The two-digit year v: the first half of a century goes with the half before it, the second with the half after. */
  function Nearest(now: Today, v: nat): int {
    100 * (now.year / 100 + (if now.year % 100 >= 50 then 1 else 0) - (if v >= 50 then 1 else 0)) + v
  }

  /** g is f with the field of the element set from the piece. */
  predicate Stored(e: Element, piece: string, f: Fields, g: Fields, now: Today) {
    match e
    case YYYY | RRRR => g == f.(year := Value(piece))
    case YYY => g == f.(year := SameStart(now, Value(piece), 3))
    case YY => g == f.(year := SameStart(now, Value(piece), 2))
    case Y => g == f.(year := SameStart(now, Value(piece), 1))
    case RR => g == f.(year := Nearest(now, Value(piece)))
    case YCommaYYY => |piece| > 4 &&
      g == f.(year := 1000 * Value(piece[..|piece| - 4]) + Value(piece[|piece| - 3..]))
    case MON | MONTH => IsMonth(piece, g.month, e.MON?) && g == f.(month := g.month)
    case MM => g == f.(month := Value(piece))
    case DD => g == f.(day := Value(piece))
    case HH | HH12 => g == f.(hour := if Value(piece) == 12 then 0 else Value(piece))
    case HH24 => g == f.(hour := Value(piece))
    case MI => g == f.(minute := Value(piece))
    case SS => g == f.(second := Value(piece))
    case SSSSS =>
      && g == f.(hour := g.hour, minute := g.minute, second := g.second)
      && g.minute < 60 && g.second < 60 && (g.hour * 60 + g.minute) * 60 + g.second == Value(piece)
    case FF(n) =>
      g == f.(nano := g.nano) && |piece| <= 9 && g.nano % 1000 == 0
      && g.nano <= Value(piece) * Pow10(9 - |piece|) < g.nano + 1000
    case ADotM | PDotM => g == f.(pm := SameLetters(piece, "P.M."), hasMeridian := true)
    case TZH => piece != [] &&
      g == f.(zone := f.zone.(west := piece[0] == '-', hours := Value(piece[1..]), given := true))
    case TZM => g == f.(zone := f.zone.(minutes := Value(piece)))
    case DDD | DAY | DY | D | Q | AM | PM => false
  }

  /** The rest is the end of the text, and this is what precedes it. */
  predicate EndOf(s: string, rest: string) { |rest| <= |s| && rest == s[|s| - |rest|..] }

  function Before(s: string, rest: string): string
    requires EndOf(s, rest)
  {
    s[..|s| - |rest|]
  }

  // ----- numbers -----

  lemma NumberRead(s: string, delimited: bool, width: nat, max: nat)
    requires ReadNumber(s, delimited, width, max).Some?
    ensures var v := ReadNumber(s, delimited, width, max).value;
      EndOf(s, v.rest) && v.digits == |Before(s, v.rest)| && v.value == Value(Before(s, v.rest))
      && Run(Before(s, v.rest), v.rest, delimited, width, max)
  {
    var n := DigitRun(s, if delimited then max else width);
    hide ReadDecimal, DigitRun;
    assert |s| - |s[n..]| == n;
  }

  lemma NumberTaken(piece: string, rest: string, delimited: bool, width: nat, max: nat)
    requires Run(piece, rest, delimited, width, max)
    ensures ReadNumber(piece + rest, delimited, width, max) == Some(Number(Value(piece), |piece|, rest))
  {
    hide ReadDecimal;
    if delimited { ReadDigitsOf(piece, rest, 1, max); } else { ReadDigitsOf(piece, rest, width, width); }
  }

  /** A number is read exactly when a run of digits starts the text. */
  lemma NumberIff(s: string, delimited: bool, width: nat, max: nat, v: Number)
    ensures ReadNumber(s, delimited, width, max) == Some(v) <==>
      (EndOf(s, v.rest) && Run(Before(s, v.rest), v.rest, delimited, width, max)
       && v == Number(Value(Before(s, v.rest)), |Before(s, v.rest)|, v.rest))
  {
    hide ReadNumber, Run, Value;
    if ReadNumber(s, delimited, width, max) == Some(v) { NumberRead(s, delimited, width, max); }
    if EndOf(s, v.rest) && Run(Before(s, v.rest), v.rest, delimited, width, max) {
      assert Before(s, v.rest) + v.rest == s;
      NumberTaken(Before(s, v.rest), v.rest, delimited, width, max);
    }
  }

  predicate PlainNumber(e: Element) {
    e.DD? || e.HH? || e.HH12? || e.HH24? || e.MI? || e.SS? || e.SSSSS? || e.FF? || e.TZM?
  }

  /** The field set from a number. */
  lemma NumberStored(e: Element, piece: string, rest: string, delimited: bool, f: Fields, g: Fields, now: Today)
    requires PlainNumber(e) && Run(piece, rest, delimited, DigitWidth(e), DigitWidth(e))
    ensures |piece| <= 9
    ensures SetNumber(e, Number(Value(piece), |piece|, rest), f) == Some(g) <==>
      Taken(e, delimited, piece, rest) && Stored(e, piece, f, g, now)
  {
    hide Value;
    if e.SSSSS? {
      SecondsStored(Value(piece), f, g);
    } else if e.FF? {
      NanosStored(Value(piece), |piece|, f, g);
    }
  }

  lemma SecondsStored(v: nat, f: Fields, g: Fields)
    ensures g == f.(hour := v / 3600, minute := v % 3600 / 60, second := v % 60) <==>
      (g == f.(hour := g.hour, minute := g.minute, second := g.second) && g.minute < 60 && g.second < 60
       && (g.hour * 60 + g.minute) * 60 + g.second == v)
  {
    SplitDay(v);
    if g.minute < 60 && g.second < 60 && (g.hour * 60 + g.minute) * 60 + g.second == v {
      SplitBack(g.hour, g.minute, g.second);
    }
  }

  lemma SplitDay(v: nat)
    ensures v % 3600 / 60 < 60 && v % 60 < 60 && (v / 3600 * 60 + v % 3600 / 60) * 60 + v % 60 == v
  {
    var h, r := v / 3600, v % 3600;
    Sixty(v, h * 60 + r / 60, r % 60);
  }

  lemma SplitBack(h: nat, m: nat, s: nat)
    requires m < 60 && s < 60
    ensures var v := (h * 60 + m) * 60 + s; v / 3600 == h && v % 3600 / 60 == m && v % 60 == s
  {
    var v, r := (h * 60 + m) * 60 + s, m * 60 + s;
    ModUnique(v, 3600, h, r);
    ModUnique(r, 60, m, s);
    ModUnique(v, 60, h * 60 + m, s);
  }

  lemma NanosStored(v: nat, n: nat, f: Fields, g: Fields)
    requires n <= 9
    ensures g == f.(nano := Nanos(v, n)) <==>
      (g == f.(nano := g.nano) && g.nano % 1000 == 0 && g.nano <= v * Pow10(9 - n) < g.nano + 1000)
  {
    var x := v * Pow10(9 - n);
    hide Pow10;
    assert x / 1000 * 1000 <= x < x / 1000 * 1000 + 1000;
  }

  // ----- the elements -----

  lemma PlainUnfolded(e: Element, s: string, delimited: bool, f: Fields, now: Today)
    requires PlainNumber(e)
    ensures var v := ReadNumber(s, delimited, DigitWidth(e), DigitWidth(e));
      ReadElement(e, s, delimited, f, now) ==
        if v.None? then None
        else var g := SetNumber(e, v.value, f); if g.None? then None else Some(Progress(g.value, v.value.rest))
    ensures var v := ReadNumber(s, delimited, DigitWidth(e), DigitWidth(e)); v.Some? ==> v.value.digits <= 9
  {
    hide SetNumber, DigitRun;
  }

  lemma TakenRun(e: Element, delimited: bool, piece: string, rest: string)
    requires PlainNumber(e) && Taken(e, delimited, piece, rest)
    ensures Run(piece, rest, delimited, DigitWidth(e), DigitWidth(e))
  {
    hide Run, Value;
  }

  lemma PlainReadsAt(e: Element, s: string, delimited: bool, f: Fields, now: Today, g: Fields, rest: string)
    requires PlainNumber(e)
    ensures ReadElement(e, s, delimited, f, now) == Some(Progress(g, rest)) <==>
      (EndOf(s, rest) && Taken(e, delimited, Before(s, rest), rest) && Stored(e, Before(s, rest), f, g, now))
  {
    hide ReadElement, ReadNumber, Run, Taken, Stored, SetNumber, Value, DigitWidth, PlainNumber;
    var w, v := DigitWidth(e), ReadNumber(s, delimited, DigitWidth(e), DigitWidth(e));
    PlainUnfolded(e, s, delimited, f, now);
    if v.Some? {
      NumberRead(s, delimited, w, w);
      NumberStored(e, Before(s, v.value.rest), v.value.rest, delimited, f, g, now);
    }
    if EndOf(s, rest) && Taken(e, delimited, Before(s, rest), rest) {
      assert Before(s, rest) + rest == s;
      TakenRun(e, delimited, Before(s, rest), rest);
      NumberTaken(Before(s, rest), rest, delimited, w, w);
      NumberStored(e, Before(s, rest), rest, delimited, f, g, now);
    }
  }

  /** Reading an element is right at one result. */
  ghost predicate ReadsAt(e: Element, s: string, delimited: bool, f: Fields, now: Today, r: Option<Progress>, g: Fields,
      rest: string) {
    r == Some(Progress(g, rest)) <==>
      (EndOf(s, rest) && Taken(e, delimited, Before(s, rest), rest) && Stored(e, Before(s, rest), f, g, now))
  }

  lemma FullYearReads(e: Element, s: string, delimited: bool, f: Fields, now: Today, g: Fields, rest: string)
    requires e.YYYY? || e.RRRR?
    ensures ReadsAt(e, s, delimited, f, now, ReadElement(e, s, delimited, f, now), g, rest)
  {
    hide ReadNumber, Run, Value;
    var v := ReadNumber(s, delimited, 4, 5);
    if v.Some? { NumberRead(s, delimited, 4, 5); }
    if EndOf(s, rest) && Run(Before(s, rest), rest, delimited, 4, 5) {
      assert Before(s, rest) + rest == s;
      NumberTaken(Before(s, rest), rest, delimited, 4, 5);
    }
  }

  /** n digits at the start of a text. */
  lemma DigitsReadAt(s: string, n: nat, rest: string)
    ensures var r := ReadDigits(s, n, n);
      (r.Some? && r.value.rest == rest <==> EndOf(s, rest) && Digits(Before(s, rest), n))
      && (r.Some? ==> EndOf(s, r.value.rest) && r.value.value == Value(Before(s, r.value.rest)))
  {
    var r := ReadDigits(s, n, n);
    assert r == ReadNumber(s, false, n, n);
    hide ReadDigits, Value;
    if r.Some? { NumberRead(s, false, n, n); }
    if EndOf(s, rest) && Digits(Before(s, rest), n) {
      assert Before(s, rest) + rest == s;
      NumberTaken(Before(s, rest), rest, false, n, n);
    }
  }

  function Width(e: Element): nat { if e.YYY? then 3 else if e.YY? then 2 else 1 }

  lemma ShortYear(e: Element, s: string, delimited: bool, f: Fields, now: Today)
    requires e.YYY? || e.YY? || e.Y?
    ensures var w := Width(e);
      var r := ReadDigits(s, w, w);
      ReadElement(e, s, delimited, f, now) ==
        if r.None? then None else Some(Progress(f.(year := SameStart(now, r.value.value, w)), r.value.rest))
  {
    var w := Width(e);
    assert |Name(e)| == w;
    Divide(now.year, Pow10(w));
    hide ReadDigits, Pow10, Name;
    assert now.year / Pow10(w) * Pow10(w) == now.year - now.year % Pow10(w);
  }

  lemma ShortYearReads(e: Element, s: string, delimited: bool, f: Fields, now: Today, g: Fields, rest: string)
    requires e.YYY? || e.YY? || e.Y?
    ensures ReadsAt(e, s, delimited, f, now, ReadElement(e, s, delimited, f, now), g, rest)
  {
    hide ReadDigits, Value, ReadElement, SameStart, Digits;
    ShortYear(e, s, delimited, f, now);
    DigitsReadAt(s, Width(e), rest);
  }

  lemma TwoDigitYearReads(s: string, delimited: bool, f: Fields, now: Today, g: Fields, rest: string)
    ensures ReadsAt(RR, s, delimited, f, now, ReadElement(RR, s, delimited, f, now), g, rest)
  {
    DigitsReadAt(s, 2, rest);
    hide ReadDigits, Value;
  }

  lemma CommaYearTaken(a: string, b: string, rest: string, f: Fields, now: Today, delimited: bool)
    requires AllDigits(a) && 1 <= |a| <= 2 && Digits(b, 3)
    ensures ReadElement(YCommaYYY, a + [','] + b + rest, delimited, f, now)
      == Some(Progress(f.(year := Value(a) * 1000 + Value(b)), rest))
  {
    var tail := [','] + b + rest;
    assert a + [','] + b + rest == a + tail && tail[1..] == b + rest;
    hide ReadDecimal, ReadDigits;
    ReadDigitsOf(a, tail, 1, 2);
    ReadDigitsOf(b, rest, 3, 3);
  }

  lemma CommaYearRead(s: string, delimited: bool, f: Fields, now: Today)
    requires ReadElement(YCommaYYY, s, delimited, f, now).Some?
    ensures var r := ReadElement(YCommaYYY, s, delimited, f, now).value;
      EndOf(s, r.rest) && Taken(YCommaYYY, delimited, Before(s, r.rest), r.rest)
      && Stored(YCommaYYY, Before(s, r.rest), f, r.fields, now)
  {
    var n := DigitRun(s, 2);
    var hi := s[n..];
    var k := DigitRun(hi[1..], 3);
    var rest := hi[1..][3..];
    assert k == 3 && rest == s[n + 4..] && |s| - |rest| == n + 4;
    var piece := s[..n + 4];
    assert piece[..n] == s[..n] && piece[n] == hi[0] && piece[n + 1..] == hi[1..][..3];
    hide ReadDecimal, DigitRun;
  }

  lemma CommaYearReads(s: string, delimited: bool, f: Fields, now: Today, g: Fields, rest: string)
    ensures ReadsAt(YCommaYYY, s, delimited, f, now, ReadElement(YCommaYYY, s, delimited, f, now), g, rest)
  {
    var r := ReadElement(YCommaYYY, s, delimited, f, now);
    hide ReadElement;
    if r.Some? { CommaYearRead(s, delimited, f, now); }
    if EndOf(s, rest) && Taken(YCommaYYY, delimited, Before(s, rest), rest) {
      var piece := Before(s, rest);
      var n := |piece| - 4;
      var a, b := piece[..n], piece[n + 1..];
      assert s == a + [','] + b + rest;
      CommaYearTaken(a, b, rest, f, now, delimited);
    }
  }

  lemma {:induction false} MonthFound(s: string, short: bool, j: nat)
    requires 1 <= j <= 13
    ensures FindMonth(s, short, j).Some? ==> StartsWith(s, MonthText(FindMonth(s, short, j).value, short))
    ensures FindMonth(s, short, j).None? ==> forall m :: j <= m <= 12 ==> !StartsWith(s, MonthText(m, short))
    decreases 13 - j
  {
    hide StartsWith, MonthText;
    if j < 13 { MonthFound(s, short, j + 1); }
  }

  lemma MonthNameUnfolded(e: Element, s: string, delimited: bool, f: Fields, now: Today)
    requires e.MON? || e.MONTH?
    ensures var found := FindMonth(s, e.MON?, 1);
      ReadElement(e, s, delimited, f, now) ==
        if found.None? then None
        else Some(Progress(f.(month := found.value), s[|MonthText(found.value, e.MON?)|..]))
  {
    hide FindMonth, MonthText;
  }

  lemma FoundIsMonth(s: string, short: bool)
    ensures var found := FindMonth(s, short, 1);
      found.Some? ==> var w := |MonthText(found.value, short)|;
        w <= |s| && EndOf(s, s[w..]) && Before(s, s[w..]) == s[..w] && IsMonth(s[..w], found.value, short)
  {
    MonthFound(s, short, 1);
    hide FindMonth, MonthText;
  }

  lemma MonthNameReads(e: Element, s: string, delimited: bool, f: Fields, now: Today, g: Fields, rest: string)
    requires e.MON? || e.MONTH?
    ensures ReadsAt(e, s, delimited, f, now, ReadElement(e, s, delimited, f, now), g, rest)
  {
    hide FindMonth, MonthText, ReadElement, IsMonth, EndOf, Before;
    var short, found := e.MON?, FindMonth(s, e.MON?, 1);
    MonthNameUnfolded(e, s, delimited, f, now);
    FoundIsMonth(s, short);
    if m :| EndOf(s, rest) && 1 <= m <= 12 && IsMonth(Before(s, rest), m, short) {
      MonthReadsBack(s, rest, m, short, found);
      forall k | 1 <= k <= 12 && IsMonth(Before(s, rest), k, short) ensures k == m {
        MonthReadsBack(s, rest, k, short, found);
      }
    }
    MonthsOnly(s, rest, short);
  }

  lemma MonthsOnly(s: string, rest: string, short: bool)
    ensures EndOf(s, rest) ==> forall k :: IsMonth(Before(s, rest), k, short) ==> 1 <= k <= 12
  {
    hide MonthText, EndOf, Before;
  }

  lemma MonthReadsBack(s: string, rest: string, m: nat, short: bool, found: Option<nat>)
    requires EndOf(s, rest) && 1 <= m <= 12 && IsMonth(Before(s, rest), m, short) && found == FindMonth(s, short, 1)
    ensures found == Some(m) && s[|MonthText(m, short)|..] == rest
  {
    var w := MonthText(m, short);
    assert s[..|w|] == Before(s, rest);
    MonthFound(s, short, 1);
    hide FindMonth, MonthText;
    OneMonth(m, found.value, s, short);
  }

  lemma UpperSame(s: string, c: char)
    requires |s| == 4 && (c == 'A' || c == 'P')
    ensures Upper(s) == [c, '.', 'M', '.'] <==> SameLetters(s, [c, '.', 'M', '.'])
  {
    var w := [c, '.', 'M', '.'];
    forall i | 0 <= i < 4 ensures UpperChar(s[i]) == w[i] <==> LowerChar(s[i]) == LowerChar(w[i]) {}
    if SameLetters(s, w) { assert Upper(s) == w; }
    if Upper(s) == w { assert forall i :: 0 <= i < 4 ==> Upper(s)[i] == UpperChar(s[i]); }
  }

  /** The first four characters are a meridian indicator. */
  lemma HalfIff(s: string, f: Fields)
    ensures ReadDayHalf(s, f) ==
      if |s| >= 4 && (SameLetters(s[..4], "A.M.") || SameLetters(s[..4], "P.M."))
      then Some(Progress(f.(pm := SameLetters(s[..4], "P.M."), hasMeridian := true), s[4..]))
      else None
  {
    if |s| >= 4 {
      UpperSame(s[..4], 'A');
      UpperSame(s[..4], 'P');
      NotBoth(s[..4]);
      hide Upper, SameLetters;
      assert "A.M." == ['A', '.', 'M', '.'] && "P.M." == ['P', '.', 'M', '.'];
    }
  }

  lemma NotBoth(s: string)
    ensures !(SameLetters(s, "A.M.") && SameLetters(s, "P.M."))
  {
    assert |s| == 4 && SameLetters(s, "A.M.") ==> LowerChar(s[0]) == 'a';
    assert |s| == 4 && SameLetters(s, "P.M.") ==> LowerChar(s[0]) == 'p';
  }

  lemma FourLetters(piece: string)
    requires SameLetters(piece, "A.M.") || SameLetters(piece, "P.M.")
    ensures |piece| == 4
  {}

  lemma HalfUnfolded(e: Element, s: string, delimited: bool, f: Fields, now: Today)
    requires e.ADotM? || e.PDotM?
    ensures ReadElement(e, s, delimited, f, now) == ReadDayHalf(s, f)
    ensures forall piece, rest ::
      Taken(e, delimited, piece, rest) <==> SameLetters(piece, "A.M.") || SameLetters(piece, "P.M.")
    ensures forall piece, g ::
      Stored(e, piece, f, g, now) <==> g == f.(pm := SameLetters(piece, "P.M."), hasMeridian := true)
  {
    hide ReadDayHalf, SameLetters;
  }

  lemma HalfReads(e: Element, s: string, delimited: bool, f: Fields, now: Today, g: Fields, rest: string)
    requires e.ADotM? || e.PDotM?
    ensures ReadsAt(e, s, delimited, f, now, ReadElement(e, s, delimited, f, now), g, rest)
  {
    hide ReadElement, ReadDayHalf, SameLetters, Taken, Stored;
    HalfUnfolded(e, s, delimited, f, now);
    HalfIff(s, f);
    FirstFour(s, rest);
    if EndOf(s, rest) && Taken(e, delimited, Before(s, rest), rest) { FourLetters(Before(s, rest)); }
  }

  lemma FirstFour(s: string, rest: string)
    ensures |s| >= 4 ==> EndOf(s, s[4..]) && Before(s, s[4..]) == s[..4]
    ensures EndOf(s, rest) && |Before(s, rest)| == 4 ==> |s| >= 4 && Before(s, rest) == s[..4] && rest == s[4..]
  {}

  /** A number is read up to `rest` exactly when what precedes it is a run of digits. */
  lemma NumberReadIff(s: string, delimited: bool, width: nat, max: nat, rest: string)
    ensures var v := ReadNumber(s, delimited, width, max);
      && (v.Some? && v.value.rest == rest <==> EndOf(s, rest) && Run(Before(s, rest), rest, delimited, width, max))
      && (v.Some? && v.value.rest == rest ==> v.value.value == Value(Before(s, rest)))
  {
    hide ReadNumber, Run, Value;
    if ReadNumber(s, delimited, width, max).Some? { NumberRead(s, delimited, width, max); }
    if EndOf(s, rest) && Run(Before(s, rest), rest, delimited, width, max) {
      assert Before(s, rest) + rest == s;
      NumberTaken(Before(s, rest), rest, delimited, width, max);
    }
  }

  lemma ZoneUnfolded(s: string, delimited: bool, f: Fields, now: Today)
    ensures ReadElement(TZH, s, delimited, f, now) ==
      if s == "" || (s[0] != '+' && s[0] != '-' && s[0] != ' ') then None
      else
        var v := ReadNumber(s[1..], delimited, 2, 2);
        if v.None? then None
        else
          var zone := f.zone.(west := s[0] == '-', hours := v.value.value, given := true);
          Some(Progress(f.(zone := zone), v.value.rest))
  {
    hide ReadNumber;
  }

  lemma ZoneReads(s: string, delimited: bool, f: Fields, now: Today, g: Fields, rest: string)
    ensures ReadsAt(TZH, s, delimited, f, now, ReadElement(TZH, s, delimited, f, now), g, rest)
  {
    ZoneUnfolded(s, delimited, f, now);
    hide ReadElement, ReadNumber, Run, Value, EndOf, Before;
    if s != [] {
      ZoneRest(s, rest);
      NumberReadIff(s[1..], delimited, 2, 2, rest);
    } else {
      NothingBefore(s, rest);
    }
  }

  lemma NothingBefore(s: string, rest: string)
    requires s == []
    ensures EndOf(s, rest) ==> Before(s, rest) == []
  {}

  lemma ZoneRest(s: string, rest: string)
    requires s != []
    ensures EndOf(s[1..], rest) <==> EndOf(s, rest) && Before(s, rest) != []
    ensures EndOf(s[1..], rest) ==> Before(s, rest)[0] == s[0] && Before(s, rest)[1..] == Before(s[1..], rest)
  {}

  lemma MonthNumberReads(s: string, delimited: bool, f: Fields, now: Today, g: Fields, rest: string)
    ensures ReadsAt(MM, s, delimited, f, now, ReadElement(MM, s, delimited, f, now), g, rest)
  {
    hide ReadNumber, Run, Value;
    var v := ReadNumber(s, delimited, 2, 2);
    if v.Some? { NumberRead(s, delimited, 2, 2); }
    if EndOf(s, rest) && Run(Before(s, rest), rest, delimited, 2, 2) {
      assert Before(s, rest) + rest == s;
      NumberTaken(Before(s, rest), rest, delimited, 2, 2);
    }
  }

  /** Reading an element gives exactly the fields it stores from the piece it takes, and what follows that piece. */
  lemma ReadElementIff(e: Element, s: string, delimited: bool, f: Fields, now: Today, g: Fields, rest: string)
    ensures ReadElement(e, s, delimited, f, now) == Some(Progress(g, rest)) <==>
      (EndOf(s, rest) && Taken(e, delimited, Before(s, rest), rest) && Stored(e, Before(s, rest), f, g, now))
  {
    hide ReadElement, Taken, Stored, EndOf, Before;
    match e
    case YYYY | RRRR => FullYearReads(e, s, delimited, f, now, g, rest);
    case YYY | YY | Y => ShortYearReads(e, s, delimited, f, now, g, rest);
    case RR => TwoDigitYearReads(s, delimited, f, now, g, rest);
    case YCommaYYY => CommaYearReads(s, delimited, f, now, g, rest);
    case MON | MONTH => MonthNameReads(e, s, delimited, f, now, g, rest);
    case MM => MonthNumberReads(s, delimited, f, now, g, rest);
    case ADotM | PDotM => HalfReads(e, s, delimited, f, now, g, rest);
    case TZH => ZoneReads(s, delimited, f, now, g, rest);
    case DDD | DAY | DY | D | Q | AM | PM => NotRead(e, s, delimited, f, now, g, rest);
    case _ => PlainReadsAt(e, s, delimited, f, now, g, rest);
  }

  lemma NotRead(e: Element, s: string, delimited: bool, f: Fields, now: Today, g: Fields, rest: string)
    requires Unsupported(e)
    ensures ReadsAt(e, s, delimited, f, now, ReadElement(e, s, delimited, f, now), g, rest)
  {
    hide ReadNumber;
  }

  // ----- the tokens -----

  predicate Blank(s: string) { forall i :: 0 <= i < |s| ==> WhiteSpace(s[i]) }

  /** A token takes a piece of the text and changes the fields. */
  predicate TokenReads(tok: Token, delimited: bool, piece: string, rest: string, f: Fields, g: Fields, now: Today) {
    match tok
    case Space(_) => piece != [] && Blank(piece) && (rest == [] || !WhiteSpace(rest[0])) && g == f
    case Literal(text) => piece == text && g == f
    case Elem(e, _) => Taken(e, delimited, piece, rest) && Stored(e, piece, f, g, now)
  }

  lemma {:induction false} SkipSpaceIs(s: string)
    ensures EndOf(s, SkipSpace(s)) && Blank(Before(s, SkipSpace(s)))
    ensures SkipSpace(s) == [] || !WhiteSpace(SkipSpace(s)[0])
    decreases |s|
  {
    if s == [] || !WhiteSpace(s[0]) {
      assert s[0..] == s;
    } else {
      SkipSpaceIs(s[1..]);
      var r := SkipSpace(s[1..]);
      assert s[1..][|s| - 1 - |r|..] == s[|s| - |r|..];
      assert Before(s, r) == [s[0]] + Before(s[1..], r);
    }
  }

  lemma {:induction false} SkipSpaceOf(piece: string, rest: string)
    requires Blank(piece) && (rest == [] || !WhiteSpace(rest[0]))
    ensures SkipSpace(piece + rest) == rest
    decreases |piece|
  {
    if piece == [] {
      assert piece + rest == rest;
    } else {
      assert (piece + rest)[1..] == piece[1..] + rest && (piece + rest)[0] == piece[0];
      SkipSpaceOf(piece[1..], rest);
    }
  }

  lemma SpaceReads(s: string, rest: string)
    ensures SkipSpace(s) != s && SkipSpace(s) == rest <==>
      (EndOf(s, rest) && Before(s, rest) != [] && Blank(Before(s, rest)) && (rest == [] || !WhiteSpace(rest[0])))
  {
    SkipSpaceIs(s);
    hide SkipSpace, WhiteSpace;
    if EndOf(s, rest) && Blank(Before(s, rest)) && (rest == [] || !WhiteSpace(rest[0])) {
      assert Before(s, rest) + rest == s;
      SkipSpaceOf(Before(s, rest), rest);
    }
    if SkipSpace(s) == rest { assert Before(s, rest) == [] <==> s == rest; }
  }

  lemma LiteralReads(s: string, text: string, rest: string)
    ensures text <= s && s[|text|..] == rest <==> EndOf(s, rest) && Before(s, rest) == text
  {
    if text <= s { assert s[..|text|] == text; }
  }

  /** Reading a token gives exactly what it takes and stores. */
  lemma ReadTokenIff(tok: Token, next: seq<Token>, s: string, f: Fields, now: Today, g: Fields, rest: string)
    ensures ReadToken(tok, next, s, f, now) == Some(Progress(g, rest)) <==>
      EndOf(s, rest) && TokenReads(tok, Delimited(next), Before(s, rest), rest, f, g, now)
  {
    match tok
    case Space(_) =>
      SpaceReads(s, rest);
      hide SkipSpace, WhiteSpace, EndOf, Before, Blank;
    case Literal(text) =>
      LiteralReads(s, text, rest);
      hide EndOf, Before;
    case Elem(e, _) =>
      ReadElementIff(e, s, Delimited(next), f, now, g, rest);
      hide EndOf, Before, Taken, Stored, ReadElement;
  }

  /** The pieces of the text, one for each token, and the fields after them. */
  ghost predicate Reading(toks: seq<Token>, s: string, f: Fields, g: Fields, now: Today)
    decreases |toks|
  {
    if toks == [] then s == "" && g == f
    else
      exists rest, h ::
        && EndOf(s, rest) && TokenReads(toks[0], Delimited(toks[1..]), Before(s, rest), rest, f, h, now)
        && Reading(toks[1..], rest, h, g, now)
  }

  lemma {:induction false} ReadTokensIff(toks: seq<Token>, s: string, f: Fields, now: Today, g: Fields)
    ensures ReadTokens(toks, s, f, now) == Some(Progress(g, "")) <==> Reading(toks, s, f, g, now)
    decreases |toks|
  {
    if toks != [] {
      var r := ReadToken(toks[0], toks[1..], s, f, now);
      hide ReadToken, TokenReads, EndOf, Before;
      if r.Some? {
        ReadTokenIff(toks[0], toks[1..], s, f, now, r.value.fields, r.value.rest);
        ReadTokensIff(toks[1..], r.value.rest, r.value.fields, now, g);
      }
      if Reading(toks, s, f, g, now) {
        var rest, h :| EndOf(s, rest)
          && TokenReads(toks[0], Delimited(toks[1..]), Before(s, rest), rest, f, h, now)
          && Reading(toks[1..], rest, h, g, now);
        ReadTokenIff(toks[0], toks[1..], s, f, now, h, rest);
      }
    }
  }

  // ----- the value -----

  /** The hour with the half of the day. */
  function FullHour(g: Fields): nat { g.hour + if g.hasMeridian && g.pm then 12 else 0 }

  /** The time of day is that of the fields, cut to microseconds. */
  predicate SameClock(c: Civil, g: Fields) {
    && c.hour == FullHour(g) && c.minute == g.minute && c.second == g.second
    && c.micro * 1000 <= g.nano < c.micro * 1000 + 1000
  }

  predicate SameDate(c: Civil, g: Fields) { c.year == g.year && c.month == g.month && c.day == g.day }

  /** A value of the type that exists, with the date, the time and the offset of the fields. */
  predicate Finished(g: Fields, t: Type, r: Stamp) {
    && ValidCivil(r.civil) && SameClock(r.civil, g) && g.zone.hours <= 14
    && (if t == TIME then r.civil.year == 1970 && r.civil.month == 1 && r.civil.day == 1 else SameDate(r.civil, g))
    && (r.offset.Some? <==> t == TIMESTAMP && g.zone.given)
    && (r.offset.Some? ==>
      r.offset.value == 60 * (60 * g.zone.hours + g.zone.minutes) * if g.zone.west then -1 else 1)
  }

  /** The date of the fields is one the clock or a format can give. */
  predicate DateInRange(g: Fields) { 1 <= g.year <= 9999 && 1 <= g.month <= 12 && 1 <= g.day }

  lemma FinishIff(g: Fields, t: Type, r: Stamp)
    requires g.nano < 1_000_000_000
    ensures Finish(Progress(g, ""), t) == Some(r) <==> Finished(g, t, r) && DateInRange(g)
  {
    assert g.nano / 1000 * 1000 <= g.nano < g.nano / 1000 * 1000 + 1000;
    hide DaysIn;
  }

  lemma NanoBelow(v: nat, n: nat)
    requires n <= 9 && v < Pow10(n)
    ensures v * Pow10(9 - n) < 1_000_000_000
  {
    Powers();
    PowSum(n, 9 - n);
    MulLe(v + 1, Pow10(n), Pow10(9 - n));
    hide Pow10;
    assert (v + 1) * Pow10(9 - n) == v * Pow10(9 - n) + Pow10(9 - n);
  }

  lemma {:induction false} PowSum(a: nat, b: nat)
    ensures Pow10(a) * Pow10(b) == Pow10(a + b)
    decreases a
  {
    if a > 0 {
      PowSum(a - 1, b);
      Associate(10, Pow10(a - 1), Pow10(b));
    }
  }

  lemma TokenNano(tok: Token, delimited: bool, piece: string, rest: string, f: Fields, g: Fields, now: Today)
    requires TokenReads(tok, delimited, piece, rest, f, g, now) && f.nano < 1_000_000_000
    ensures g.nano < 1_000_000_000
  {
    hide Pow10, Value, Taken, Stored;
    if tok.Elem? {
      StoredNano(tok.e, piece, f, g, now);
      if tok.e.FF? {
        TakenFraction(tok.e, delimited, piece, rest);
        PieceNano(piece);
      }
    }
  }

  /** Only a fraction changes the nanoseconds. */
  lemma StoredNano(e: Element, piece: string, f: Fields, g: Fields, now: Today)
    requires Stored(e, piece, f, g, now)
    ensures if e.FF? then |piece| <= 9 && g.nano <= Value(piece) * Pow10(9 - |piece|) else g.nano == f.nano
  {
    hide Pow10, Value, MonthText, SameStart, Nearest, IsMonth, SameLetters;
  }

  lemma TakenFraction(e: Element, delimited: bool, piece: string, rest: string)
    requires e.FF? && Taken(e, delimited, piece, rest)
    ensures AllDigits(piece)
  {
    hide MonthText, IsMonth;
  }

  lemma PieceNano(piece: string)
    requires AllDigits(piece) && |piece| <= 9
    ensures Value(piece) * Pow10(9 - |piece|) < 1_000_000_000
  {
    ReadBelow(piece);
    hide Pow10, ReadDecimal;
    NanoBelow(Value(piece), |piece|);
  }

  lemma {:induction false} ReadingNano(toks: seq<Token>, s: string, f: Fields, g: Fields, now: Today)
    requires Reading(toks, s, f, g, now) && f.nano < 1_000_000_000
    ensures g.nano < 1_000_000_000
    decreases |toks|
  {
    if toks != [] {
      hide TokenReads, EndOf, Before;
      var rest, h :| EndOf(s, rest)
        && TokenReads(toks[0], Delimited(toks[1..]), Before(s, rest), rest, f, h, now)
        && Reading(toks[1..], rest, h, g, now);
      TokenNano(toks[0], Delimited(toks[1..]), Before(s, rest), rest, f, h, now);
      ReadingNano(toks[1..], rest, h, g, now);
    }
  }

  /** The white space of Unicode, by code point. */
  lemma WhiteSpaceIs(c: char)
    ensures WhiteSpace(c) <==>
      || 9 <= c as int <= 13 || c as int == 32 || c as int == 133 || c as int == 160 || c as int == 5760
      || 8192 <= c as int <= 8202 || c as int == 8232 || c as int == 8233 || c as int == 8239 || c as int == 8287
      || c as int == 12288
  {}

  /** Nothing but white space is trimmed, and all of it. */
  lemma TrimIs(s: string) returns (before: string, after: string)
    ensures s == before + Trim(s) + after && Blank(before) && Blank(after)
    ensures Trim(s) != [] ==> !WhiteSpace(Trim(s)[0]) && !WhiteSpace(Trim(s)[|Trim(s)| - 1])
  {
    hide *;
    SkipSpaceIs(s);
    var u := SkipSpace(s);
    EndSplit(s, u);
    before := Before(s, u);
    after := TrimEndIs(u);
    TrimUnfolded(s);
    Regroup(before, TrimEnd(u), after);
    assert TrimEnd(u) != [] ==> (TrimEnd(u) + after)[0] == TrimEnd(u)[0];
  }

  lemma TrimUnfolded(s: string)
    ensures Trim(s) == TrimEnd(SkipSpace(s))
  {}

  lemma EndSplit(s: string, rest: string)
    requires EndOf(s, rest)
    ensures s == Before(s, rest) + rest
  {}

  lemma Regroup(a: string, b: string, c: string)
    ensures a + (b + c) == a + b + c
  {}

  lemma {:induction false} TrimEndIs(s: string) returns (after: string)
    ensures s == TrimEnd(s) + after && Blank(after)
    ensures TrimEnd(s) != [] ==> !WhiteSpace(TrimEnd(s)[|TrimEnd(s)| - 1])
    decreases |s|
  {
    if s == [] || !WhiteSpace(s[|s| - 1]) {
      after := [];
      assert s + [] == s;
    } else {
      var n := |s| - 1;
      var rest := TrimEndIs(s[..n]);
      after := rest + [s[n]];
      assert s == s[..n] + [s[n]];
      assert TrimEnd(s[..n]) + rest + [s[n]] == TrimEnd(s[..n]) + (rest + [s[n]]);
    }
  }

  /**
   A text is parsed exactly when the format is valid for the type and the text without white space around it is a
   sequence of pieces, one for each token, that leaves the fields of an existing value.
   */
  lemma ParseIff(s: string, format: string, t: Type, now: Today, r: Stamp)
    ensures Parse(s, format, t, now) == Some(r) <==>
      (Tokens(format).Some? && ValidModel(Tokens(format).value, t) &&
       exists g :: Reading(Tokens(format).value, Trim(s), Missing(now), g, now) && Finished(g, t, r) && DateInRange(g))
  {
    if Tokens(format).Some? && ValidModel(Tokens(format).value, t) {
      var toks := Tokens(format).value;
      var p := ReadTokens(toks, Trim(s), Missing(now), now);
      hide Tokens, ValidModel, ReadTokens, Finish, Finished, DateInRange, Reading, Trim;
      if p.Some? && p.value.rest == "" {
        var g := p.value.fields;
        ReadTokensIff(toks, Trim(s), Missing(now), now, g);
        ReadingNano(toks, Trim(s), Missing(now), g, now);
        FinishIff(g, t, r);
      }
      forall g | Reading(toks, Trim(s), Missing(now), g, now) ensures p == Some(Progress(g, "")) {
        ReadTokensIff(toks, Trim(s), Missing(now), now, g);
      }
      if p.Some? && p.value.rest != "" { LeftOver(p.value, t); }
    }
  }

  lemma LeftOver(p: Progress, t: Type)
    requires p.rest != ""
    ensures Finish(p, t) == None
  {}

  // ----- parts the format does not have -----

  lemma {:induction false} Untouched(toks: seq<Token>, s: string, f: Fields, g: Fields, now: Today)
    requires Reading(toks, s, f, g, now)
    ensures !HasPart(toks, Year) ==> g.year == f.year
    ensures !HasPart(toks, Month) ==> g.month == f.month
    ensures !HasPart(toks, Day) ==> g.day == f.day
    ensures !HasPart(toks, Hour) && !HasPart(toks, DaySecond) ==> g.hour == f.hour
    ensures !HasPart(toks, Minute) && !HasPart(toks, DaySecond) ==> g.minute == f.minute
    ensures !HasPart(toks, Second) && !HasPart(toks, DaySecond) ==> g.second == f.second
    ensures !HasPart(toks, Fraction) ==> g.nano == f.nano
    ensures !HasPart(toks, DayHalf) ==> g.pm == f.pm && g.hasMeridian == f.hasMeridian
    ensures !HasPart(toks, ZoneHour) ==> g.zone.given == f.zone.given
    decreases |toks|
  {
    if toks != [] {
      var rest, h :| EndOf(s, rest)
        && TokenReads(toks[0], Delimited(toks[1..]), Before(s, rest), rest, f, h, now)
        && Reading(toks[1..], rest, h, g, now);
      Untouched(toks[1..], rest, h, g, now);
      TokenUntouched(toks[0], Delimited(toks[1..]), Before(s, rest), rest, f, h, now);
      forall p: Part ensures HasPart(toks, p) <==> SetsPart(toks[0], p) || HasPart(toks[1..], p) {
        HasPartCons(toks, p);
      }
      hide TokenReads, EndOf, Before, HasPart, SetsPart, Reading;
    }
  }

  lemma TokenUntouched(tok: Token, delimited: bool, piece: string, rest: string, f: Fields, g: Fields, now: Today)
    requires TokenReads(tok, delimited, piece, rest, f, g, now)
    ensures !SetsPart(tok, Year) ==> g.year == f.year
    ensures !SetsPart(tok, Month) ==> g.month == f.month
    ensures !SetsPart(tok, Day) ==> g.day == f.day
    ensures !SetsPart(tok, Hour) && !SetsPart(tok, DaySecond) ==> g.hour == f.hour
    ensures !SetsPart(tok, Minute) && !SetsPart(tok, DaySecond) ==> g.minute == f.minute
    ensures !SetsPart(tok, Second) && !SetsPart(tok, DaySecond) ==> g.second == f.second
    ensures !SetsPart(tok, Fraction) ==> g.nano == f.nano
    ensures !SetsPart(tok, DayHalf) ==> g.pm == f.pm && g.hasMeridian == f.hasMeridian
    ensures !SetsPart(tok, ZoneHour) ==> g.zone.given == f.zone.given
  {
    hide Taken, Pow10, Value, MonthText;
  }

  /** A part the format does not set: the year and month are today's, the day is the first and the time midnight. */
  lemma MissingParts(s: string, format: string, t: Type, now: Today, r: Stamp)
    requires Parse(s, format, t, now) == Some(r)
    ensures var toks := Tokens(format).value;
      && (t != TIME && !HasPart(toks, Year) ==> r.civil.year == now.year)
      && (t != TIME && !HasPart(toks, Month) ==> r.civil.month == now.month)
      && (t != TIME && !HasPart(toks, Day) ==> r.civil.day == 1)
      && (!HasPart(toks, Hour) && !HasPart(toks, DaySecond) && !HasPart(toks, DayHalf) ==> r.civil.hour == 0)
      && (!HasPart(toks, Minute) && !HasPart(toks, DaySecond) ==> r.civil.minute == 0)
      && (!HasPart(toks, Second) && !HasPart(toks, DaySecond) ==> r.civil.second == 0)
      && (!HasPart(toks, Fraction) ==> r.civil.micro == 0)
      && (!HasPart(toks, ZoneHour) ==> r.offset == None)
  {
    ParseIff(s, format, t, now, r);
    var toks := Tokens(format).value;
    var g :| Reading(toks, Trim(s), Missing(now), g, now) && Finished(g, t, r) && DateInRange(g);
    hide *;
    Untouched(toks, Trim(s), Missing(now), g, now);
    MissingFields(now);
    FinishedFields(g, t, r);
  }

  lemma MissingFields(now: Today)
    ensures var f := Missing(now);
      && f.year == now.year && f.month == now.month && f.day == 1 && f.hour == 0 && f.minute == 0 && f.second == 0
      && f.nano == 0 && !f.pm && !f.hasMeridian && !f.zone.given
  {}

  lemma FinishedFields(g: Fields, t: Type, r: Stamp)
    requires Finished(g, t, r)
    ensures t != TIME ==> r.civil.year == g.year && r.civil.month == g.month && r.civil.day == g.day
    ensures (g.hour == 0 && !g.pm ==> r.civil.hour == 0) && r.civil.minute == g.minute && r.civil.second == g.second
    ensures (g.nano == 0 ==> r.civil.micro == 0) && (!g.zone.given ==> r.offset == None)
  {
    hide ValidCivil;
  }
}

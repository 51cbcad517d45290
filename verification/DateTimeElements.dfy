/** The date and time format elements of CAST ... FORMAT, and the text each one prints. */
module DateTimeElements {
  import opened Sequences
  import opened Decimals
  import opened Ascii

  // ----- elements -----

  type FractionDigits = n: nat | 1 <= n <= 9 witness 1

  datatype Element =
    | YYYY | RRRR | YYY | YY | Y | YCommaYYY | RR | MM | MON | MONTH | DD | DDD | DAY | DY | D | Q
    | HH | HH12 | HH24 | MI | SS | SSSSS | AM | PM | ADotM | PDotM | FF(n: FractionDigits) | TZH | TZM

  function Name(e: Element): (s: string)
    ensures s != []
  {
    match e
    case YYYY => "YYYY" case RRRR => "RRRR" case YYY => "YYY" case YY => "YY" case Y => "Y"
    case YCommaYYY => "Y,YYY" case RR => "RR" case MM => "MM" case MON => "MON" case MONTH => "MONTH"
    case DD => "DD" case DDD => "DDD" case DAY => "DAY" case DY => "DY" case D => "D" case Q => "Q"
    case HH => "HH" case HH12 => "HH12" case HH24 => "HH24" case MI => "MI" case SS => "SS" case SSSSS => "SSSSS"
    case AM => "AM" case PM => "PM" case ADotM => "A.M." case PDotM => "P.M."
    case FF(n) => "FF" + [DigitChar(n)] case TZH => "TZH" case TZM => "TZM"
  }

  const LONG_ELEMENTS: seq<Element> := [ADotM, PDotM, HH24, HH12, MONTH, YYYY, RRRR]
  const FRACTION_ELEMENTS: seq<Element> := [FF(1), FF(2), FF(3), FF(4), FF(5), FF(6), FF(7), FF(8), FF(9)]
  const ZONE_ELEMENTS: seq<Element> := [SSSSS, TZH, TZM]
  const TRIPLE_ELEMENTS: seq<Element> := [YYY, MON, DDD, DAY]
  const PAIR_ELEMENTS: seq<Element> := [RR, YY, MM, DD, DY, HH, MI, SS, AM, PM]
  const SINGLE_ELEMENTS: seq<Element> := [Y, D, Q]

  /** In the order they are tried: the first that matches is taken. */
  const PRINT_ELEMENTS: seq<Element> :=
    LONG_ELEMENTS + FRACTION_ELEMENTS + ZONE_ELEMENTS + TRIPLE_ELEMENTS + PAIR_ELEMENTS + SINGLE_ELEMENTS

  const PARSE_ELEMENTS: seq<Element> := [YCommaYYY] + PRINT_ELEMENTS

  predicate SameLetters(s: string, t: string) {
    |s| == |t| && forall i :: 0 <= i < |s| ==> LowerChar(s[i]) == LowerChar(t[i])
  }

  /** The text starts with the word, in any case. */
  predicate StartsWith(s: string, word: string) { |word| <= |s| && SameLetters(s[..|word|], word) }

  function FirstMatch(elements: seq<Element>, s: string): (e: Option<Element>)
    ensures e.Some? ==> StartsWith(s, Name(e.value))
  {
    if elements == [] then None
    else if StartsWith(s, Name(elements[0])) then Some(elements[0])
    else FirstMatch(elements[1..], s)
  }

  /** The two lists differ in Y,YYY only. */
  lemma SameMatch(s: string)
    requires FirstMatch(PARSE_ELEMENTS, s) != Some(YCommaYYY)
    ensures FirstMatch(PRINT_ELEMENTS, s) == FirstMatch(PARSE_ELEMENTS, s)
  {
    hide PRINT_ELEMENTS;
    assert PARSE_ELEMENTS[0] == YCommaYYY && PARSE_ELEMENTS[1..] == PRINT_ELEMENTS;
  }

  // ----- civil times -----

  datatype Civil = Civil(year: nat, month: nat, day: nat, hour: nat, minute: nat, second: nat, micro: nat)

  function DaysIn(year: int, month: int): nat {
    if month == 2 then if (year % 4 == 0 && year % 100 != 0) || year % 400 == 0 then 29 else 28
    else if month == 4 || month == 6 || month == 9 || month == 11 then 30
    else 31
  }

  predicate ValidCivil(c: Civil) {
    && 1 <= c.year <= 9999 && 1 <= c.month <= 12 && 1 <= c.day <= DaysIn(c.year, c.month)
    && c.hour < 24 && c.minute < 60 && c.second < 60 && c.micro < 1_000_000
  }

  /**
   A civil time with what the calendar says of its day, Sunday being 0 and 1 January 1, and the offset of its zone
   in seconds east of UTC.
   */
  datatype Moment = Moment(civil: Civil, weekday: nat, yearDay: nat, offset: int)

  predicate ValidMoment(m: Moment) {
    ValidCivil(m.civil) && m.weekday < 7 && 1 <= m.yearDay <= 366 && -86400 < m.offset < 86400
  }

  /** The offset without its sign. */
  function Away(m: Moment): nat { if m.offset < 0 then -m.offset else m.offset }

  function MonthName(month: nat): (s: string)
    requires 1 <= month <= 12
    ensures |s| >= 3
  {
    match month
    case 1 => "January" case 2 => "February" case 3 => "March" case 4 => "April" case 5 => "May" case 6 => "June"
    case 7 => "July" case 8 => "August" case 9 => "September" case 10 => "October" case 11 => "November"
    case _ => "December"
  }

  function DayName(weekday: nat): (s: string)
    requires weekday < 7
    ensures |s| >= 3
  {
    match weekday
    case 0 => "Sunday" case 1 => "Monday" case 2 => "Tuesday" case 3 => "Wednesday" case 4 => "Thursday"
    case 5 => "Friday"
    case _ => "Saturday"
  }

  // ----- printing one element -----

  predicate UpperLetter(c: char) { 'A' <= c <= 'Z' }

  /** The case of a text element is the case of its output. */
  function TextCase(elem: string, s: string): (r: string)
    requires elem != [] && s != []
    ensures |r| == |s|
  {
    if elem == Upper(elem) && |elem| > 1 && UpperLetter(elem[1]) then Upper(s)
    else if UpperLetter(elem[0]) then Upper(s[..1]) + Lower(s[1..])
    else Lower(s)
  }

  lemma TextCaseLetters(elem: string, s: string)
    requires elem != [] && s != []
    ensures SameLetters(TextCase(elem, s), s)
  {
    var r := TextCase(elem, s);
    forall i | 0 <= i < |s| ensures LowerChar(r[i]) == LowerChar(s[i]) {}
  }

  function Fixed(k: nat, w: nat): string { Padded(Decimal(k), w) }

  function Hour12(hour: nat): nat { if hour % 12 == 0 then 12 else hour % 12 }

  function Meridian(raw: string, dotted: bool, hour: nat): string
    requires raw != []
  {
    var m := if hour >= 12 then 'P' else 'A';
    var s := if dotted then [m, '.', 'M', '.'] else [m, 'M'];
    if 'a' <= raw[0] <= 'z' then Lower(s) else s
  }

  function SecondOfDay(c: Civil): nat { c.hour * 3600 + c.minute * 60 + c.second }

  /** Y,YYY is not an element when printing. */
  function Render(e: Element, raw: string, m: Moment): string
    requires raw != [] && ValidMoment(m)
  {
    var c := m.civil;
    match e
    case YYYY | RRRR => Fixed(c.year, 4)
    case YYY => Fixed(c.year % 1000, 3)
    case YY | RR => Fixed(c.year % 100, 2)
    case Y => Decimal(c.year % 10)
    case Q => Decimal((c.month - 1) / 3 + 1)
    case MM => Fixed(c.month, 2)
    case MON => TextCase(raw, MonthName(c.month)[..3])
    case MONTH => TextCase(raw, MonthName(c.month))
    case DD => Fixed(c.day, 2)
    case DDD => Fixed(m.yearDay, 3)
    case D => Decimal(m.weekday + 1)
    case DAY => TextCase(raw, DayName(m.weekday))
    case DY => TextCase(raw, DayName(m.weekday)[..3])
    case HH | HH12 => Fixed(Hour12(c.hour), 2)
    case HH24 => Fixed(c.hour, 2)
    case MI => Fixed(c.minute, 2)
    case SS => Fixed(c.second, 2)
    case SSSSS => Fixed(SecondOfDay(c), 5)
    case AM | PM => Meridian(raw, false, c.hour)
    case ADotM | PDotM => Meridian(raw, true, c.hour)
    case FF(n) => Fixed(c.micro * 1000, 9)[..n]
    case TZH => [if m.offset < 0 then '-' else '+'] + Fixed(Away(m) / 3600, 2)
    case TZM => Fixed(Away(m) % 3600 / 60, 2)
    case YCommaYYY => ""
  }
}

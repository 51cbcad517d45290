/** Parsing a printed DATE, TIME, DATETIME or TIMESTAMP with its own format gives it back. */
module DateTimeRoundTrip {
  import opened Sequences
  import opened Arithmetic
  import opened Decimals
  import opened Ascii
  import opened DateTimeElements
  import opened DateTimePrinting
  import opened DateTimeParsing
  import opened DateTimeReading
  import opened DateTimeEscapes

  // ----- one token -----

  predicate KeptToken(tok: Token) { WellScanned(tok) && (tok.Elem? ==> Kept(tok.e)) }

  predicate AllKept(toks: seq<Token>) { forall i :: 0 <= i < |toks| ==> KeptToken(toks[i]) }

  predicate FourDigitYear(tok: Token) { tok.Elem? && (tok.e.YYYY? || tok.e.RRRR?) }

  function SetToken(f: Fields, tok: Token, m: Moment): Fields { if tok.Elem? then Set(f, tok.e, m) else f }

  function SetAll(f: Fields, toks: seq<Token>, m: Moment): Fields
    decreases |toks|
  {
    if toks == [] then f else SetAll(SetToken(f, toks[0], m), toks[1..], m)
  }

  lemma SetCons(f: Fields, toks: seq<Token>, m: Moment)
    requires toks != []
    ensures SetAll(f, toks, m) == SetAll(SetToken(f, toks[0], m), toks[1..], m)
  {
    hide SetToken;
  }

  lemma ReadCons(toks: seq<Token>, s: string, f: Fields, now: Today)
    requires toks != []
    ensures var r := ReadToken(toks[0], toks[1..], s, f, now);
      ReadTokens(toks, s, f, now) == if r.None? then None else ReadTokens(toks[1..], r.value.rest, r.value.fields, now)
  {
    hide ReadToken;
  }

  lemma {:induction false} SkipSpaces(n: nat, rest: string)
    requires rest == [] || !WhiteSpace(rest[0])
    ensures SkipSpace(Spaces(n) + rest) == rest
    decreases n
  {
    if n == 0 {
      assert Spaces(n) + rest == rest;
    } else {
      assert (Spaces(n) + rest)[1..] == Spaces(n - 1) + rest;
      SkipSpaces(n - 1, rest);
    }
  }

  /** A token's text is read back, if what follows starts with no blank after a blank and no digit after a year. */
  lemma ReadTokenOf(tok: Token, next: seq<Token>, m: Moment, rest: string, f: Fields, now: Today)
    requires ValidMoment(m) && KeptToken(tok)
    requires tok.Space? ==> rest == [] || !WhiteSpace(rest[0])
    requires FourDigitYear(tok) && Delimited(next) ==> Ends(rest)
    ensures ReadToken(tok, next, RenderToken(tok, m) + rest, f, now) == Some(Progress(SetToken(f, tok, m), rest))
  {
    match tok
    case Space(n) =>
      SkipSpaces(n, rest);
      assert |Spaces(n) + rest| > |rest|;
    case Literal(text) =>
      assert (text + rest)[|text|..] == rest;
    case Elem(e, raw) =>
      YearElement(e);
      ReadElementOf(e, raw, m, rest, Delimited(next), f, now);
  }

  lemma YearElement(e: Element)
    requires Kept(e)
    ensures PartOf(e) == Year <==> e.YYYY? || e.RRRR?
  {}

  // ----- how a format's text starts and ends -----

  datatype Class = Nothing | Numeral | Blank | Mark

  function ClassOf(c: char): Class { if Digit(c) then Numeral else if WhiteSpace(c) then Blank else Mark }

  /** How the text printed for the tokens starts, whatever the value. */
  function StartClass(toks: seq<Token>): Class {
    if toks == [] then Nothing
    else
      match toks[0]
      case Space(_) => Blank
      case Literal(text) => if text == "" then StartClass(toks[1..]) else ClassOf(text[0])
      case Elem(_, _) => if Numeric(toks[0]) then Numeral else Mark
  }

  /** Whether it ends with a blank. */
  predicate EndsBlank(toks: seq<Token>) {
    toks != [] &&
    match toks[|toks| - 1]
    case Space(_) => true
    case Literal(text) => if text == "" then EndsBlank(toks[..|toks| - 1]) else WhiteSpace(text[|text| - 1])
    case Elem(_, _) => false
  }

  /** No blank follows a run of blanks, and no digit a year whose end is marked. */
  predicate TidyHead(toks: seq<Token>)
    requires toks != []
  {
    && (toks[0].Space? ==> StartClass(toks[1..]) != Blank)
    && (FourDigitYear(toks[0]) && Delimited(toks[1..]) ==> StartClass(toks[1..]) != Numeral)
  }

  predicate Tidy(toks: seq<Token>) { toks == [] || (TidyHead(toks) && Tidy(toks[1..])) }

  /** Conditions on quoted text: nothing else can break them. */
  predicate Unambiguous(toks: seq<Token>) {
    Tidy(toks) && StartClass(toks) != Blank && !EndsBlank(toks)
  }

  lemma RenderAllCons(toks: seq<Token>, m: Moment)
    requires ValidMoment(m) && toks != [] && AllScanned(toks)
    ensures WellScanned(toks[0]) && AllScanned(toks[1..])
    ensures RenderAll(toks, m) == RenderToken(toks[0], m) + RenderAll(toks[1..], m)
  {
    hide RenderToken;
  }

  lemma RestKept(toks: seq<Token>)
    requires toks != [] && AllScanned(toks) && AllKept(toks)
    ensures AllScanned(toks[1..]) && AllKept(toks[1..]) && KeptToken(toks[0])
  {
    hide WellScanned, Kept;
    var rest := toks[1..];
    forall i | 0 <= i < |rest| ensures WellScanned(rest[i]) && KeptToken(rest[i]) { assert rest[i] == toks[i + 1]; }
    forall i | 0 <= i < |rest| - 1 ensures !(rest[i].Space? && rest[i + 1].Space?) {
      assert rest[i] == toks[i + 1] && rest[i + 1] == toks[i + 2];
    }
  }

  /** The class of the first character of a text. */
  predicate Starts(s: string, k: Class) { if s == [] then k == Nothing else k == ClassOf(s[0]) }

  lemma TokenStart(tok: Token, m: Moment)
    requires ValidMoment(m) && KeptToken(tok)
    ensures var t := RenderToken(tok, m);
      match tok
      case Space(n) => Starts(t, Blank)
      case Literal(text) => t == text
      case Elem(_, _) => Starts(t, if Numeric(tok) then Numeral else Mark)
  {
    if tok.Elem? {
      ElementText(tok.e, tok.raw, m);
      DigitOrSpace(RenderToken(tok, m)[0]);
    }
  }

  lemma DigitOrSpace(c: char)
    ensures Digit(c) ==> !WhiteSpace(c)
  {}

  lemma StartsConcat(a: string, b: string, k: Class)
    requires if a == [] then Starts(b, k) else Starts(a, k)
    ensures Starts(a + b, k)
  {
    if a == [] { assert a + b == b; }
  }

  lemma {:induction false} StartOf(toks: seq<Token>, m: Moment)
    requires ValidMoment(m) && AllScanned(toks) && AllKept(toks)
    ensures Starts(RenderAll(toks, m), StartClass(toks))
    decreases |toks|
  {
    if toks != [] {
      RestKept(toks);
      StartOf(toks[1..], m);
      RenderAllCons(toks, m);
      TokenStart(toks[0], m);
      hide AllScanned, AllKept, KeptToken, RenderAll, RenderToken, ClassOf, Numeric;
      StartsConcat(RenderToken(toks[0], m), RenderAll(toks[1..], m), StartClass(toks));
    }
  }

  // ----- reading the text back -----

  /** s is the text without blanks at its end. */
  predicate Cut(s: string, t: string) {
    && |s| <= |t| && s == t[..|s|]
    && (forall i :: |s| <= i < |t| ==> WhiteSpace(t[i]))
    && (s != [] ==> !WhiteSpace(s[|s| - 1]))
  }

  /** The value is not what was read. */
  predicate Missed(r: Option<Progress>, m: Moment, dated: bool) {
    r.None? || r.value.rest != "" || (dated && r.value.fields.year != m.civil.year)
  }

  /** A text that starts with no blank is not read by a format that does. */
  lemma {:induction false} BlankStartFails(toks: seq<Token>, s: string, f: Fields, now: Today)
    requires StartClass(toks) == Blank && (s == [] || !WhiteSpace(s[0]))
    ensures ReadTokens(toks, s, f, now) == None
    decreases |toks|
  {
    ReadCons(toks, s, f, now);
    if toks[0].Literal? && toks[0].text == "" {
      assert s[0..] == s;
      BlankStartFails(toks[1..], s, f, now);
    } else if toks[0].Literal? {
      NotPrefix(toks[0].text, s);
    }
    hide ReadTokens;
  }

  lemma NotPrefix(t: string, s: string)
    requires t != [] && WhiteSpace(t[0]) && (s == [] || !WhiteSpace(s[0]))
    ensures !(t <= s)
  {}

  lemma NoBlankPrefix(s: string, n: nat)
    requires |s| <= n && s == Spaces(n)[..|s|] && (s != [] ==> !WhiteSpace(s[|s| - 1]))
    ensures s == []
  {
    assert forall i :: 0 <= i < |s| ==> s[i] == ' ';
  }

  lemma ElementKeepsYear(e: Element, s: string, delimited: bool, f: Fields, now: Today)
    requires PartOf(e) != Year
    ensures var r := ReadElement(e, s, delimited, f, now); r.Some? ==> r.value.fields.year == f.year
  {
    hide ReadNumber, FindMonth, Upper;
  }

  lemma {:induction false} KeepsYear(toks: seq<Token>, s: string, f: Fields, now: Today)
    requires !HasPart(toks, Year)
    ensures var r := ReadTokens(toks, s, f, now); r.Some? ==> r.value.fields.year == f.year
    decreases |toks|
  {
    if toks != [] {
      HasPartCons(toks, Year);
      ReadCons(toks, s, f, now);
      var r := ReadToken(toks[0], toks[1..], s, f, now);
      if toks[0].Elem? { ElementKeepsYear(toks[0].e, s, Delimited(toks[1..]), f, now); }
      hide ReadElement, ReadTokens, HasPart;
      if r.Some? { KeepsYear(toks[1..], r.value.rest, r.value.fields, now); }
    }
  }

  /** A year followed by a digit takes the digit too. */
  lemma LongYear(tok: Token, next: seq<Token>, m: Moment, rest: string, f: Fields, now: Today)
    requires ValidMoment(m) && KeptToken(tok) && FourDigitYear(tok) && Delimited(next) && rest != [] && Digit(rest[0])
    ensures var r := ReadToken(tok, next, RenderToken(tok, m) + rest, f, now);
      r.Some? && r.value.fields.year != m.civil.year
  {
    Powers();
    var y := m.civil.year;
    PaddedRead(y, 4);
    var a := Fixed(y, 4) + [rest[0]];
    ReadSnoc(Fixed(y, 4), rest[0]);
    assert Fixed(y, 4) + rest == a + rest[1..];
    hide Padded, Decimal, ReadDecimal, Pow10, Fixed;
    ReadDigitsOf(a, rest[1..], 1, 5);
  }

  /** Reading the text of a token that ends before the cut. */
  lemma CutRest(a: string, b: string, s: string)
    requires Cut(s, a + b) && |a| <= |s|
    ensures s == a + s[|a|..] && Cut(s[|a|..], b) && (s == a + b <==> s[|a|..] == b)
    ensures var r := s[|a|..];
      (b == [] ==> r == []) && (r != [] ==> b != [] && r[0] == b[0]) && (b != [] && !WhiteSpace(b[0]) ==> r != [])
  {
    var t, r := a + b, s[|a|..];
    assert s[..|a|] == t[..|a|] == a;
    assert forall i :: 0 <= i < |r| ==> r[i] == s[|a| + i] == t[|a| + i] == b[i];
    assert forall i :: 0 <= i < |b| ==> b[i] == t[|a| + i];
  }

  /** The cut falls into the first token: it is quoted text or a run of blanks, and is not found. */
  lemma CutFirst(tok: Token, next: seq<Token>, b: string, m: Moment, s: string, f: Fields, now: Today)
    requires ValidMoment(m) && KeptToken(tok) && Cut(s, RenderToken(tok, m) + b) && |s| < |RenderToken(tok, m)|
    ensures ReadToken(tok, next, s, f, now) == None
  {
    var t := RenderToken(tok, m);
    assert (t + b)[|s|] == t[|s|] && WhiteSpace(t[|s|]);
    match tok
    case Space(n) =>
      assert (t + b)[..|s|] == t[..|s|];
      NoBlankPrefix(s, n);
    case Literal(_) =>
    case Elem(e, raw) => ElementText(e, raw, m);
  }

  lemma TidyNext(toks: seq<Token>, m: Moment, r: string)
    requires ValidMoment(m) && toks != [] && AllScanned(toks) && AllKept(toks) && TidyHead(toks)
    requires AllScanned(toks[1..])
    requires r == [] || (RenderAll(toks[1..], m) != [] && r[0] == RenderAll(toks[1..], m)[0])
    ensures toks[0].Space? ==> r == [] || !WhiteSpace(r[0])
    ensures FourDigitYear(toks[0]) && Delimited(toks[1..]) ==> Ends(r)
  {
    RestKept(toks);
    StartOf(toks[1..], m);
    hide AllScanned, AllKept, RenderAll, StartClass;
  }

  // ----- every field is set -----

  /**
   Which fields a format for a type sets: the date and the time of day as the type has them, and the half of the day
   and the hours and minutes of the zone as the format has them.
   */
  datatype Kind = Kind(dated: bool, timed: bool, twelve: bool, zoned: bool, minutes: bool)

  function KindOf(toks: seq<Token>, t: Type): Kind {
    Kind(t != TIME, t != DATE, HasPart(toks, DayHalf), HasPart(toks, ZoneHour), HasPart(toks, ZoneMinute))
  }

  /** The fields after reading a text of that kind. */
  function Target(m: Moment, k: Kind, now: Today): Fields {
    var c := m.civil;
    var date := if k.dated then (c.year, c.month, c.day) else (now.year, now.month, 1);
    var hour := if k.twelve then c.hour % 12 else c.hour;
    var time := if k.timed then (hour, c.minute, c.second, c.micro) else (0, 0, 0, 0);
    Fields(date.0, date.1, date.2, time.0, time.1, time.2, time.3 * 1000, k.twelve && c.hour >= 12, k.twelve,
      Zone(k.zoned && m.offset < 0, if k.zoned then Away(m) / 3600 else 0,
        if k.minutes then Away(m) % 3600 / 60 else 0, k.zoned))
  }

  predicate SetsHour(tok: Token) { SetsPart(tok, Hour) || SetsPart(tok, DaySecond) }

  predicate SetsMinute(tok: Token) { SetsPart(tok, Minute) || SetsPart(tok, DaySecond) }

  predicate SetsSecond(tok: Token) { SetsPart(tok, Second) || SetsPart(tok, DaySecond) }

  /** Elements that set the fields to those of the target. */
  predicate Fits(tok: Token, k: Kind) {
    && KeptToken(tok)
    && (tok.Elem? ==>
      && (PartOf(tok.e) == Year || PartOf(tok.e) == Month || PartOf(tok.e) == Day ==> k.dated)
      && (IsTime(tok.e) ==> k.timed)
      && (tok.e.HH24? || tok.e.SSSSS? ==> !k.twelve)
      && (tok.e.HH? || tok.e.HH12? || tok.e.ADotM? || tok.e.PDotM? ==> k.twelve)
      && (tok.e.FF? ==> tok.e.n >= 6)
      && (tok.e.TZH? ==> k.zoned) && (tok.e.TZM? ==> k.minutes))
  }

  predicate AllFit(toks: seq<Token>, k: Kind) { forall i :: 0 <= i < |toks| ==> Fits(toks[i], k) }

  predicate SomeHour(toks: seq<Token>) { exists i :: 0 <= i < |toks| && SetsHour(toks[i]) }

  predicate SomeMinute(toks: seq<Token>) { exists i :: 0 <= i < |toks| && SetsMinute(toks[i]) }

  predicate SomeSecond(toks: seq<Token>) { exists i :: 0 <= i < |toks| && SetsSecond(toks[i]) }

  /** Each field is right or will be set. */
  predicate Covered(f: Fields, toks: seq<Token>, g: Fields) {
    && (f.year == g.year || HasPart(toks, Year)) && (f.month == g.month || HasPart(toks, Month))
    && (f.day == g.day || HasPart(toks, Day)) && (f.hour == g.hour || SomeHour(toks))
    && (f.minute == g.minute || SomeMinute(toks)) && (f.second == g.second || SomeSecond(toks))
    && (f.nano == g.nano || HasPart(toks, Fraction))
    && ((f.pm == g.pm && f.hasMeridian == g.hasMeridian) || HasPart(toks, DayHalf))
    && (SameHours(f.zone, g.zone) || HasPart(toks, ZoneHour))
    && (f.zone.minutes == g.zone.minutes || HasPart(toks, ZoneMinute))
  }

  predicate SameHours(a: Zone, b: Zone) { a.west == b.west && a.hours == b.hours && a.given == b.given }

  lemma SomeCons(toks: seq<Token>)
    requires toks != []
    ensures SomeHour(toks) <==> SetsHour(toks[0]) || SomeHour(toks[1..])
    ensures SomeMinute(toks) <==> SetsMinute(toks[0]) || SomeMinute(toks[1..])
    ensures SomeSecond(toks) <==> SetsSecond(toks[0]) || SomeSecond(toks[1..])
  {
    SomeParts(toks);
    SomeParts(toks[1..]);
    HasPartCons(toks, Hour);
    HasPartCons(toks, Minute);
    HasPartCons(toks, Second);
    HasPartCons(toks, DaySecond);
    hide HasPart, SomeHour, SomeMinute, SomeSecond, SetsPart;
  }

  lemma SomeParts(toks: seq<Token>)
    ensures SomeHour(toks) <==> HasPart(toks, Hour) || HasPart(toks, DaySecond)
    ensures SomeMinute(toks) <==> HasPart(toks, Minute) || HasPart(toks, DaySecond)
    ensures SomeSecond(toks) <==> HasPart(toks, Second) || HasPart(toks, DaySecond)
  {
    hide SetsPart;
  }

  /** A token sets the fields of its part and no others. */
  lemma SetTokenDate(f: Fields, tok: Token, m: Moment, k: Kind, now: Today)
    requires Fits(tok, k)
    ensures var g, r := SetToken(f, tok, m), Target(m, k, now);
      && g.year == (if SetsPart(tok, Year) then r.year else f.year)
      && g.month == (if SetsPart(tok, Month) then r.month else f.month)
      && g.day == (if SetsPart(tok, Day) then r.day else f.day)
      && g.nano == (if SetsPart(tok, Fraction) then r.nano else f.nano)
  {
    if tok.Elem? && tok.e.FF? { ShownWhole(m.civil.micro, tok.e.n); }
    hide Shown;
  }

  lemma SetTokenHour(f: Fields, tok: Token, m: Moment, k: Kind, now: Today)
    requires Fits(tok, k)
    ensures var g, r := SetToken(f, tok, m), Target(m, k, now);
      g.hour == if SetsHour(tok) then r.hour else f.hour
  {
    hide Shown, Unsupported, IsZone, Away;
  }

  lemma SetTokenMeridian(f: Fields, tok: Token, m: Moment, k: Kind, now: Today)
    requires Fits(tok, k)
    ensures var g, r := SetToken(f, tok, m), Target(m, k, now);
      && g.pm == (if SetsPart(tok, DayHalf) then r.pm else f.pm)
      && g.hasMeridian == (if SetsPart(tok, DayHalf) then r.hasMeridian else f.hasMeridian)
  {
    hide Shown, Unsupported, IsZone, Away;
  }

  lemma SetTokenMinute(f: Fields, tok: Token, m: Moment, k: Kind, now: Today)
    requires Fits(tok, k)
    ensures var g, r := SetToken(f, tok, m), Target(m, k, now);
      g.minute == if SetsMinute(tok) then r.minute else f.minute
  {
    hide Shown, Unsupported, IsZone, Away;
  }

  lemma SetTokenSecond(f: Fields, tok: Token, m: Moment, k: Kind, now: Today)
    requires Fits(tok, k)
    ensures var g, r := SetToken(f, tok, m), Target(m, k, now);
      g.second == if SetsSecond(tok) then r.second else f.second
  {
    hide Shown, Unsupported, IsZone, Away;
  }

  lemma SetTokenZone(f: Fields, tok: Token, m: Moment, k: Kind, now: Today)
    requires Fits(tok, k)
    ensures var g, r := SetToken(f, tok, m), Target(m, k, now);
      && SameHours(g.zone, if SetsPart(tok, ZoneHour) then r.zone else f.zone)
      && g.zone.minutes == (if SetsPart(tok, ZoneMinute) then r.zone.minutes else f.zone.minutes)
  {
    hide Shown;
  }

  lemma CoveredStep(f: Fields, toks: seq<Token>, m: Moment, k: Kind, now: Today)
    requires toks != [] && Fits(toks[0], k) && Covered(f, toks, Target(m, k, now))
    ensures Covered(SetToken(f, toks[0], m), toks[1..], Target(m, k, now))
  {
    hide HasPart, SomeHour, SomeMinute, SomeSecond, Fits, SetToken, Target, SetsPart, SetsHour, SetsMinute, SetsSecond;
    HasPartCons(toks, Year);
    HasPartCons(toks, Month);
    HasPartCons(toks, Day);
    HasPartCons(toks, Fraction);
    HasPartCons(toks, DayHalf);
    HasPartCons(toks, ZoneHour);
    HasPartCons(toks, ZoneMinute);
    SomeCons(toks);
    SetTokenDate(f, toks[0], m, k, now);
    SetTokenHour(f, toks[0], m, k, now);
    SetTokenMeridian(f, toks[0], m, k, now);
    SetTokenMinute(f, toks[0], m, k, now);
    SetTokenSecond(f, toks[0], m, k, now);
    SetTokenZone(f, toks[0], m, k, now);
  }

  lemma {:induction false} CoveredSet(f: Fields, toks: seq<Token>, m: Moment, k: Kind, now: Today)
    requires AllFit(toks, k) && Covered(f, toks, Target(m, k, now))
    ensures SetAll(f, toks, m) == Target(m, k, now)
    decreases |toks|
  {
    if toks != [] {
      CoveredStep(f, toks, m, k, now);
      hide Covered, Fits, SetToken, Target;
      CoveredSet(SetToken(f, toks[0], m), toks[1..], m, k, now);
    }
  }

  /** Only a TIMESTAMP has a zone, and its minutes come with its hours. */
  predicate Zoned(t: Type, k: Kind) { (k.zoned ==> t == TIMESTAMP) && (k.minutes ==> k.zoned) }

  /** What a type keeps of a civil time: a TIME is on the first day of 1970, and a DATE at midnight. */
  function OfType(c: Civil, t: Type): Civil {
    match t
    case DATE => Civil(c.year, c.month, c.day, 0, 0, 0, 0)
    case TIME => Civil(1970, 1, 1, c.hour, c.minute, c.second, c.micro)
    case _ => c
  }

  /** The civil time is that of the moment, as far as the type goes, and so is the offset if there is one. */
  predicate Returned(r: Option<Stamp>, m: Moment, t: Type) {
    r.Some? && r.value.civil == OfType(m.civil, t) && (r.value.offset.Some? ==> r.value.offset.value == m.offset)
  }

  /** The offset has at most 14 hours, and the format shows all of it. */
  predicate OffsetShown(m: Moment, k: Kind) {
    k.zoned ==> Away(m) < 15 * 3600 && Away(m) % 60 == 0 && (k.minutes || Away(m) % 3600 == 0)
  }

  /** A date the clock can show. */
  predicate ValidToday(now: Today) { 1 <= now.year <= 9999 && 1 <= now.month <= 12 }

  lemma FinishTarget(m: Moment, k: Kind, t: Type, now: Today)
    requires ValidCivil(m.civil) && Zoned(t, k) && k.dated == (t != TIME) && k.timed == (t != DATE)
    requires (k.twelve ==> k.timed) && (t == TIME ==> ValidToday(now))
    ensures Returned(Finish(Progress(Target(m, k, now), ""), t), m, t) <==> OffsetShown(m, k)
  {
    assert m.civil.micro * 1000 / 1000 == m.civil.micro;
    ShownParts(m, k, now);
    hide Away;
  }

  lemma ShownParts(m: Moment, k: Kind, now: Today)
    ensures var z := Target(m, k, now).zone;
      k.zoned ==> (Offset(z) == m.offset <==>
        Away(m) % 60 == 0 && (k.minutes || Away(m) % 3600 == 0)) && (z.hours > 14 <==> Away(m) >= 15 * 3600)
  {
    var a := Away(m);
    SplitOffset(a);
  }

  lemma SplitOffset(a: nat)
    ensures a == a / 3600 * 3600 + a % 3600 && a % 3600 == a % 3600 / 60 * 60 + a % 60
    ensures a % 3600 == 0 ==> a % 60 == 0
  {
    var q, r := a / 3600, a % 3600;
    Sixty(a, q * 60 + r / 60, r % 60);
  }

  predicate Micros(tok: Token) { tok.Elem? && tok.e.FF? && tok.e.n >= 6 }

  predicate HasYear(toks: seq<Token>) { exists i :: 0 <= i < |toks| && FourDigitYear(toks[i]) }

  predicate HasMicros(toks: seq<Token>) { exists i :: 0 <= i < |toks| && Micros(toks[i]) }

  /** A format that fixes what the type has: the year, month and day, and the time of day to the microsecond. */
  predicate Fixes(toks: seq<Token>, t: Type) {
    && (t != TIME ==> HasYear(toks) && HasPart(toks, Month) && HasPart(toks, Day))
    && (t != DATE ==> HasMicros(toks) && (HasClock(toks) || HasPart(toks, DaySecond)))
  }

  predicate HasClock(toks: seq<Token>) { HasPart(toks, Hour) && HasPart(toks, Minute) && HasPart(toks, Second) }

  /** Two tokens that set the same part are the same. */
  lemma SameToken(toks: seq<Token>, i: nat, j: nat, p: Part)
    requires DistinctParts(toks) && i < |toks| && j < |toks| && SetsPart(toks[i], p) && SetsPart(toks[j], p)
    ensures i == j
  {
    hide PartOf;
  }

  lemma YearToken(toks: seq<Token>, i: nat)
    requires DistinctParts(toks) && HasYear(toks) && i < |toks| && SetsPart(toks[i], Year)
    ensures FourDigitYear(toks[i])
  {
    var j :| 0 <= j < |toks| && FourDigitYear(toks[j]);
    hide DistinctParts;
    SameToken(toks, i, j, Year);
  }

  lemma FractionToken(toks: seq<Token>, i: nat)
    requires DistinctParts(toks) && HasMicros(toks) && i < |toks| && SetsPart(toks[i], Fraction)
    ensures Micros(toks[i])
  {
    var j :| 0 <= j < |toks| && Micros(toks[j]);
    hide DistinctParts;
    SameToken(toks, i, j, Fraction);
  }

  lemma HourToken(toks: seq<Token>, i: nat)
    requires HoursAgree(toks) && i < |toks| && toks[i].Elem?
    ensures toks[i].e.HH24? || toks[i].e.SSSSS? ==> !HasPart(toks, DayHalf)
    ensures toks[i].e.HH? || toks[i].e.HH12? || toks[i].e.ADotM? || toks[i].e.PDotM? ==> HasPart(toks, DayHalf)
  {
    var e := toks[i].e;
    assert HasElement(toks, e);
    assert SetsPart(toks[i], PartOf(e));
    assert HasPart(toks, PartOf(e));
    hide HasElement, HasPart;
  }

  lemma TokenKept(toks: seq<Token>, i: nat, t: Type)
    requires DistinctParts(toks) && AllAllowed(toks, t)
    requires (t != TIME ==> HasYear(toks)) && (t != DATE ==> HasMicros(toks))
    requires i < |toks| && WellScanned(toks[i])
    ensures KeptToken(toks[i]) && (toks[i].Elem? && toks[i].e.FF? ==> toks[i].e.n >= 6)
  {
    if toks[i].Elem? {
      assert PartAllowed(t, PartOf(toks[i].e));
      hide DistinctParts, AllAllowed, HasYear, HasMicros;
      if SetsPart(toks[i], Year) { YearToken(toks, i); }
      if SetsPart(toks[i], Fraction) { FractionToken(toks, i); }
    }
  }

  lemma TypeToken(toks: seq<Token>, i: nat, t: Type)
    requires AllAllowed(toks, t) && i < |toks| && toks[i].Elem? && !Unsupported(toks[i].e)
    ensures var e := toks[i].e;
      && (PartOf(e) == Year || PartOf(e) == Month || PartOf(e) == Day ==> t != TIME)
      && (IsTime(e) ==> t != DATE)
  {
    assert PartAllowed(t, PartOf(toks[i].e));
  }

  lemma ZoneToken(toks: seq<Token>, i: nat)
    requires i < |toks| && toks[i].Elem?
    ensures toks[i].e.TZH? ==> HasPart(toks, ZoneHour)
    ensures toks[i].e.TZM? ==> HasPart(toks, ZoneMinute)
  {
    assert SetsPart(toks[i], PartOf(toks[i].e));
  }

  lemma TokenFits(toks: seq<Token>, i: nat, t: Type)
    requires ValidModel(toks, t) && Fixes(toks, t) && i < |toks| && WellScanned(toks[i])
    ensures Fits(toks[i], KindOf(toks, t))
  {
    assert toks[i].Elem? ==> !Unsupported(toks[i].e);
    hide HasPart, DistinctParts, AllAllowed, HoursAgree, HasYear, HasMicros, KeptToken, WellScanned, PartOf, IsTime;
    TokenKept(toks, i, t);
    if toks[i].Elem? {
      TypeToken(toks, i, t);
      HourToken(toks, i);
      ZoneToken(toks, i);
    }
  }

  lemma ModelFits(toks: seq<Token>, t: Type)
    requires ValidModel(toks, t) && Fixes(toks, t) && forall i :: 0 <= i < |toks| ==> WellScanned(toks[i])
    ensures AllFit(toks, KindOf(toks, t)) && AllKept(toks)
  {
    hide ValidModel, Fixes, KindOf, WellScanned;
    forall i | 0 <= i < |toks| ensures Fits(toks[i], KindOf(toks, t)) && KeptToken(toks[i]) { TokenFits(toks, i, t); }
  }

  lemma ModelSupported(toks: seq<Token>, t: Type)
    requires ValidModel(toks, t) && AllKept(toks)
    ensures SupportedTokens(toks, t)
  {
    hide DistinctParts, HoursAgree;
    forall i | 0 <= i < |toks| && toks[i].Elem? ensures Supports(t, toks[i].e) && !toks[i].e.YCommaYYY? {
      assert KeptToken(toks[i]) && PartAllowed(t, PartOf(toks[i].e));
    }
  }

  lemma ModelZoned(toks: seq<Token>, t: Type)
    requires ValidModel(toks, t)
    ensures Zoned(t, KindOf(toks, t)) && (KindOf(toks, t).twelve ==> t != DATE) && DistinctParts(toks)
    ensures HasPart(toks, Year) ==> t != TIME
  {
    if HasPart(toks, ZoneHour) {
      var i :| 0 <= i < |toks| && SetsPart(toks[i], ZoneHour);
      assert PartAllowed(t, PartOf(toks[i].e));
    }
    if HasPart(toks, DayHalf) {
      var i :| 0 <= i < |toks| && SetsPart(toks[i], DayHalf);
      assert PartAllowed(t, PartOf(toks[i].e));
    }
    if HasPart(toks, Year) {
      var i :| 0 <= i < |toks| && SetsPart(toks[i], Year);
      assert PartAllowed(t, PartOf(toks[i].e));
    }
    hide DistinctParts, HoursAgree, AllAllowed, HasPart;
  }

  lemma FixesParts(toks: seq<Token>, t: Type)
    requires Fixes(toks, t)
    ensures (t != TIME ==> HasPart(toks, Year)) && (t != DATE ==> HasPart(toks, Fraction))
  {
    if t != TIME {
      var i :| 0 <= i < |toks| && FourDigitYear(toks[i]);
      assert SetsPart(toks[i], Year);
    }
    if t != DATE {
      var j :| 0 <= j < |toks| && Micros(toks[j]);
      assert SetsPart(toks[j], Fraction);
    }
  }

  lemma ModelCovered(toks: seq<Token>, m: Moment, t: Type, now: Today)
    requires Fixes(toks, t) && (KindOf(toks, t).twelve ==> t != DATE)
    ensures Covered(Missing(now), toks, Target(m, KindOf(toks, t), now))
  {
    FixesParts(toks, t);
    SomeParts(toks);
    hide HasPart, HasYear, HasMicros, SomeHour, SomeMinute, SomeSecond;
  }

  // ----- the whole text -----

  /** One token of a text cut at its end. */
  lemma ReadBackStep(toks: seq<Token>, s: string, m: Moment, f: Fields, now: Today, dated: bool)
    requires ValidMoment(m) && toks != [] && AllScanned(toks) && AllKept(toks) && DistinctParts(toks)
    requires Cut(s, RenderAll(toks, m)) && (HasPart(toks, Year) ==> dated)
    ensures AllScanned(toks[1..]) && AllKept(toks[1..])
    ensures var t := RenderToken(toks[0], m);
      if |t| <= |s| && TidyHead(toks) then
        && Cut(s[|t|..], RenderAll(toks[1..], m)) && (s == RenderAll(toks, m) <==> s[|t|..] == RenderAll(toks[1..], m))
        && ReadTokens(toks, s, f, now) == ReadTokens(toks[1..], s[|t|..], SetToken(f, toks[0], m), now)
      else Missed(ReadTokens(toks, s, f, now), m, dated) && (|s| < |t| ==> s != RenderAll(toks, m))
  {
    RestKept(toks);
    RenderAllCons(toks, m);
    ReadCons(toks, s, f, now);
    var t, b, next := RenderToken(toks[0], m), RenderAll(toks[1..], m), toks[1..];
    hide AllScanned, RenderAll, RenderToken, ReadToken, ReadTokens, Cut, TidyHead;
    if |s| < |t| {
      CutFirst(toks[0], next, b, m, s, f, now);
    } else {
      CutRest(t, b, s);
      if TidyHead(toks) {
        TidyNext(toks, m, s[|t|..]);
        ReadTokenOf(toks[0], next, m, s[|t|..], f, now);
      } else {
        UntidyMissed(toks, s, m, f, now, dated);
      }
    }
  }

  lemma UntidyMissed(toks: seq<Token>, s: string, m: Moment, f: Fields, now: Today, dated: bool)
    requires ValidMoment(m) && toks != [] && AllScanned(toks) && AllKept(toks) && DistinctParts(toks) && !TidyHead(toks)
    requires Cut(s, RenderAll(toks, m)) && WellScanned(toks[0]) && |RenderToken(toks[0], m)| <= |s|
    requires HasPart(toks, Year) ==> dated
    ensures Missed(ReadTokens(toks, s, f, now), m, dated)
  {
    RestKept(toks);
    RenderAllCons(toks, m);
    ReadCons(toks, s, f, now);
    var t, b, next := RenderToken(toks[0], m), RenderAll(toks[1..], m), toks[1..];
    StartOf(next, m);
    CutRest(t, b, s);
    var r := ReadToken(toks[0], next, s, f, now);
    if toks[0].Space? {
      SkipSpaceFirst(s);
      hide ReadTokens, RenderAll, RenderToken, AllScanned, AllKept, StartClass, DistinctParts;
      if r.Some? { BlankStartFails(next, r.value.rest, f, now); }
    } else {
      NoOtherYear(toks);
      HasPartCons(toks, Year);
      DigitOrSpace(if b == [] then ' ' else b[0]);
      hide ReadTokens, RenderAll, RenderToken, AllScanned, AllKept, StartClass, DistinctParts, ReadToken;
      LongYear(toks[0], next, m, s[|t|..], f, now);
      KeepsYear(next, r.value.rest, r.value.fields, now);
    }
  }

  lemma NoOtherYear(toks: seq<Token>)
    requires toks != [] && DistinctParts(toks) && FourDigitYear(toks[0])
    ensures !HasPart(toks[1..], Year)
  {
    var next := toks[1..];
    forall i | 0 <= i < |next| ensures !SetsPart(next[i], Year) { assert next[i] == toks[i + 1]; }
  }

  lemma RestDistinct(toks: seq<Token>)
    requires toks != [] && DistinctParts(toks)
    ensures DistinctParts(toks[1..])
  {
    hide PartOf;
    var next := toks[1..];
    assert forall i :: 0 <= i < |next| ==> next[i] == toks[i + 1];
  }

  /** The text printed for tokens is read back exactly when nothing was cut and the tokens are tidy. */
  lemma {:induction false} ReadBack(toks: seq<Token>, s: string, m: Moment, f: Fields, now: Today, dated: bool)
    requires ValidMoment(m) && AllScanned(toks) && AllKept(toks) && DistinctParts(toks) && Cut(s, RenderAll(toks, m))
    requires HasPart(toks, Year) ==> dated
    ensures var r := ReadTokens(toks, s, f, now);
      if s == RenderAll(toks, m) && Tidy(toks) then r == Some(Progress(SetAll(f, toks, m), ""))
      else Missed(r, m, dated)
    decreases |toks|
  {
    if toks == [] {
      assert s == "";
    } else {
      ReadBackStep(toks, s, m, f, now, dated);
      HasPartCons(toks, Year);
      RestDistinct(toks);
      TidyCons(toks);
      SetCons(f, toks, m);
      hide *;
      var t := RenderToken(toks[0], m);
      if |t| <= |s| && TidyHead(toks) {
        ReadBack(toks[1..], s[|t|..], m, SetToken(f, toks[0], m), now, dated);
      }
    }
  }

  lemma TidyCons(toks: seq<Token>)
    requires toks != []
    ensures Tidy(toks) <==> TidyHead(toks) && Tidy(toks[1..])
  {
    hide TidyHead;
  }

  // ----- blanks at the ends -----

  lemma InitScanned(toks: seq<Token>, tok: Token)
    requires AllScanned(toks + [tok])
    ensures AllScanned(toks) && WellScanned(tok)
  {
    hide WellScanned;
    var all := toks + [tok];
    assert all[|toks|] == tok && forall i :: 0 <= i < |toks| ==> all[i] == toks[i];
  }

  lemma {:induction false} RenderSnoc(toks: seq<Token>, tok: Token, m: Moment)
    requires ValidMoment(m) && AllScanned(toks + [tok])
    ensures AllScanned(toks) && WellScanned(tok)
    ensures RenderAll(toks + [tok], m) == RenderAll(toks, m) + RenderToken(tok, m)
    decreases |toks|
  {
    InitScanned(toks, tok);
    RenderAllCons(toks + [tok], m);
    if toks == [] {
      assert (toks + [tok])[1..] == [] && toks + [tok] == [tok];
      NothingRendered(m);
      hide *;
      assert RenderToken(tok, m) + "" == "" + RenderToken(tok, m);
    } else {
      assert (toks + [tok])[1..] == toks[1..] + [tok];
      hide *;
      RenderSnoc(toks[1..], tok, m);
      RenderAllCons(toks, m);
      var a, b, c := RenderToken(toks[0], m), RenderAll(toks[1..], m), RenderToken(tok, m);
      assert a + (b + c) == (a + b) + c;
    }
  }

  lemma NothingRendered(m: Moment)
    requires ValidMoment(m)
    ensures RenderAll([], m) == ""
  {}

  lemma {:induction false} SkipSpaceFirst(s: string)
    ensures SkipSpace(s) != [] ==> !WhiteSpace(SkipSpace(s)[0])
    decreases |s|
  {
    if s != [] && WhiteSpace(s[0]) { SkipSpaceFirst(s[1..]); }
  }

  lemma {:induction false} TrimEndFirst(s: string)
    requires s != [] ==> !WhiteSpace(s[0])
    ensures TrimEnd(s) != [] ==> !WhiteSpace(TrimEnd(s)[0])
    decreases |s|
  {
    if s != [] && WhiteSpace(s[|s| - 1]) { TrimEndFirst(s[..|s| - 1]); }
  }

  lemma TrimFirst(s: string)
    ensures Trim(s) != [] ==> !WhiteSpace(Trim(s)[0])
  {
    SkipSpaceFirst(s);
    TrimEndFirst(SkipSpace(s));
  }

  lemma {:induction false} EndOf(toks: seq<Token>, m: Moment)
    requires ValidMoment(m) && AllScanned(toks) && AllKept(toks)
    ensures BlankLast(RenderAll(toks, m)) <==> EndsBlank(toks)
    decreases |toks|
  {
    if toks != [] {
      var n := |toks| - 1;
      assert toks == toks[..n] + [toks[n]];
      assert KeptToken(toks[n]) && AllKept(toks[..n]);
      hide AllScanned, AllKept, RenderAll, RenderToken, KeptToken, BlankLast;
      RenderSnoc(toks[..n], toks[n], m);
      EndOf(toks[..n], m);
      TokenEnd(toks[n], m);
      LastOf(RenderAll(toks[..n], m), RenderToken(toks[n], m));
    }
  }

  predicate BlankLast(s: string) { s != [] && WhiteSpace(s[|s| - 1]) }

  lemma LastOf(a: string, b: string)
    ensures BlankLast(a + b) <==> if b == [] then BlankLast(a) else BlankLast(b)
  {
    if b == [] { assert a + b == a; } else { assert (a + b)[|a + b| - 1] == b[|b| - 1]; }
  }

  lemma TokenEnd(tok: Token, m: Moment)
    requires ValidMoment(m) && KeptToken(tok)
    ensures var t := RenderToken(tok, m);
      match tok
      case Space(n) => t != [] && BlankLast(t)
      case Literal(text) => t == text && (text != "" ==> (BlankLast(t) <==> WhiteSpace(text[|text| - 1])))
      case Elem(_, _) => t != [] && !BlankLast(t)
  {
    if tok.Elem? { ElementText(tok.e, tok.raw, m); }
  }

  lemma {:induction false} TrimEndCut(t: string)
    ensures Cut(TrimEnd(t), t) && (TrimEnd(t) == t <==> !BlankLast(t))
    decreases |t|
  {
    if t != [] && WhiteSpace(t[|t| - 1]) {
      var u := t[..|t| - 1];
      TrimEndCut(u);
      assert forall i :: 0 <= i < |u| ==> u[i] == t[i];
    } else {
      assert t[..|t|] == t;
    }
  }

  // ----- the round trip -----

  lemma ReadsTarget(toks: seq<Token>, m: Moment, now: Today, k: Kind)
    requires ValidMoment(m) && AllScanned(toks) && AllKept(toks) && AllFit(toks, k) && DistinctParts(toks)
    requires Covered(Missing(now), toks, Target(m, k, now)) && Tidy(toks) && !EndsBlank(toks)
    ensures ReadTokens(toks, TrimEnd(RenderAll(toks, m)), Missing(now), now) == Some(Progress(Target(m, k, now), ""))
  {
    hide *;
    TrimEndCut(RenderAll(toks, m));
    EndOf(toks, m);
    ReadBack(toks, TrimEnd(RenderAll(toks, m)), m, Missing(now), now, true);
    CoveredSet(Missing(now), toks, m, k, now);
  }

  lemma ReadsMissed(toks: seq<Token>, m: Moment, f: Fields, now: Today, dated: bool)
    requires ValidMoment(m) && AllScanned(toks) && AllKept(toks) && DistinctParts(toks)
    requires (EndsBlank(toks) || !Tidy(toks)) && (HasPart(toks, Year) ==> dated)
    ensures Missed(ReadTokens(toks, TrimEnd(RenderAll(toks, m)), f, now), m, dated)
  {
    hide *;
    TrimEndCut(RenderAll(toks, m));
    EndOf(toks, m);
    ReadBack(toks, TrimEnd(RenderAll(toks, m)), m, f, now, dated);
  }

  lemma MissedFinish(r: Option<Progress>, m: Moment, t: Type)
    requires Missed(r, m, t != TIME)
    ensures r.Some? ==> !Returned(Finish(r.value, t), m, t)
  {}

  lemma TrimStart(toks: seq<Token>, m: Moment)
    requires ValidMoment(m) && AllScanned(toks) && AllKept(toks) && StartClass(toks) != Blank
    ensures Trim(RenderAll(toks, m)) == TrimEnd(RenderAll(toks, m))
  {
    StartOf(toks, m);
    hide StartClass, RenderAll, TrimEnd, AllScanned, AllKept;
  }

  lemma ScannedEach(toks: seq<Token>)
    requires AllScanned(toks)
    ensures forall i :: 0 <= i < |toks| ==> WellScanned(toks[i])
  {
    hide WellScanned;
  }

  lemma MomentCivil(m: Moment)
    requires ValidMoment(m)
    ensures ValidCivil(m.civil)
  {}

  lemma KindFlags(toks: seq<Token>, t: Type)
    ensures KindOf(toks, t).dated == (t != TIME) && KindOf(toks, t).timed == (t != DATE)
  {}

  /** What reading the printed text gives. */
  lemma ReadsBackIff(toks: seq<Token>, m: Moment, t: Type, now: Today)
    requires ValidMoment(m) && AllScanned(toks) && ValidModel(toks, t) && Fixes(toks, t)
    requires t == TIME ==> ValidToday(now)
    ensures var r := ReadTokens(toks, Trim(RenderAll(toks, m)), Missing(now), now);
      r.Some? && Returned(Finish(r.value, t), m, t) <==> Unambiguous(toks) && OffsetShown(m, KindOf(toks, t))
  {
    ScannedEach(toks);
    assert Unambiguous(toks) <==> Tidy(toks) && StartClass(toks) != Blank && !EndsBlank(toks);
    hide *;
    ModelZoned(toks, t);
    KindFlags(toks, t);
    ModelFits(toks, t);
    var s := RenderAll(toks, m);
    if StartClass(toks) == Blank {
      TrimFirst(s);
      BlankStartFails(toks, Trim(s), Missing(now), now);
    } else {
      TrimStart(toks, m);
      if Tidy(toks) && !EndsBlank(toks) {
        ModelCovered(toks, m, t, now);
        ReadsTarget(toks, m, now, KindOf(toks, t));
        MomentCivil(m);
        FinishTarget(m, KindOf(toks, t), t, now);
      } else {
        ReadsMissed(toks, m, Missing(now), now, t != TIME);
        MissedFinish(ReadTokens(toks, TrimEnd(s), Missing(now), now), m, t);
      }
    }
  }

  /** The value is printed, and parsing the text with the same format gives it back, its offset included if shown. */
  predicate ReadsBackAt(format: string, m: Moment, t: Type, now: Today)
    requires ValidMoment(m)
  {
    Print(format, m, t).Some? && Returned(Parse(Print(format, m, t).value, format, t, now), m, t)
  }

  /**
   A format that parses a DATE, TIME, DATETIME or TIMESTAMP and fixes it prints each value as a text that parses back to
   it exactly when there is no backslash in it and no apostrophe outside quoted text, it is unambiguous, which means
   that its text neither starts nor ends with a blank, no blank follows a run of blanks and no digit follows a year
   whose end is marked, and the offset of the zone, if shown, is shown whole and has at most 14 hours.
   */
  lemma RoundTrip(format: string, toks: seq<Token>, m: Moment, t: Type, now: Today)
    requires Tokens(format) == Some(toks) && ValidModel(toks, t) && Fixes(toks, t) && ValidMoment(m)
    requires t == TIME ==> ValidToday(now)
    ensures Shared(format) ==> Print(format, m, t).Some?
    ensures ReadsBackAt(format, m, t, now) <==>
      ('\\' !in format && NoApostrophe(format) && Unambiguous(toks) && OffsetShown(m, KindOf(toks, t)))
  {
    assert Shared(format) <==> '\\' !in format && NoApostrophe(format);
    hide *;
    ScannedTokens(format, toks);
    ModelFits(toks, t);
    ModelSupported(toks, t);
    if Shared(format) {
      PrintAgrees(format, toks, m, t);
      ParseTokens(RenderAll(toks, m), format, toks, t, now);
      ReadsBackIff(toks, m, t, now);
    } else if '\\' !in format {
      ApostropheFails(format, toks, m, t);
    } else if Print(format, m, t).Some? {
      ParseTokens(Print(format, m, t).value, format, toks, t, now);
      SlashMissed(format, toks, m, t, Missing(now), now);
      LeftOver(ReadTokens(toks, Trim(Print(format, m, t).value), Missing(now), now), t);
    }
    NotReturned(m, t);
    ReadsBackIs(format, m, t, now);
  }

  lemma LeftOver(r: Option<Progress>, t: Type)
    requires r.None? || r.value.rest != ""
    ensures r.Some? ==> Finish(r.value, t) == None
  {}

  lemma NotReturned(m: Moment, t: Type)
    ensures !Returned(None, m, t)
  {}

  lemma ReadsBackIs(format: string, m: Moment, t: Type, now: Today)
    requires ValidMoment(m)
    ensures ReadsBackAt(format, m, t, now) <==>
      (Print(format, m, t).Some? && Returned(Parse(Print(format, m, t).value, format, t, now), m, t))
  {
    hide Print, Parse, Returned;
  }

  lemma ParseTokens(s: string, format: string, toks: seq<Token>, t: Type, now: Today)
    requires Tokens(format) == Some(toks) && ValidModel(toks, t)
    ensures var r := ReadTokens(toks, Trim(s), Missing(now), now);
      Parse(s, format, t, now) == if r.None? then None else Finish(r.value, t)
  {
    hide Tokens, ValidModel, ReadTokens, Finish, Trim;
  }

  lemma {:induction false} ScannedTokens(format: string, toks: seq<Token>)
    requires Tokens(format) == Some(toks)
    ensures forall i :: 0 <= i < |toks| ==> WellScanned(toks[i])
    decreases |format|
  {
    if format != [] {
      TokensSplit(format, toks);
      FirstScanned(format);
      var n := FirstToken(format).value.length;
      ScannedTokens(format[n..], toks[1..]);
      hide Tokens, FirstToken, WellScanned;
      assert forall i :: 1 <= i < |toks| ==> toks[i] == toks[1..][i - 1];
    }
  }
}

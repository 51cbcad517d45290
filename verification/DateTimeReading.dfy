/** Printing and parsing read a format alike, and reading the text of an element sets its fields. */
module DateTimeReading {
  import opened Sequences
  import opened Arithmetic
  import opened Decimals
  import opened Ascii
  import opened DateTimeElements
  import opened DateTimePrinting
  import opened DateTimeParsing

  // ----- the printed text by tokens -----

  function Spaces(n: nat): (s: string)
    ensures |s| == n
  {
    seq(n, _ => ' ')
  }

  predicate WellScanned(tok: Token) {
    match tok
    case Space(n) => n > 0
    case Literal(_) => true
    case Elem(e, raw) => raw != [] && !Unsupported(e)
  }

  /** Runs of blanks are one token each. */
  predicate AllScanned(toks: seq<Token>) {
    && (forall i :: 0 <= i < |toks| ==> WellScanned(toks[i]))
    && (forall i :: 0 <= i < |toks| - 1 ==> !(toks[i].Space? && toks[i + 1].Space?))
  }

  function RenderToken(tok: Token, m: Moment): string
    requires WellScanned(tok) && ValidMoment(m)
  {
    match tok
    case Space(n) => Spaces(n)
    case Literal(text) => text
    case Elem(e, raw) => Render(e, raw, m)
  }

  function RenderAll(toks: seq<Token>, m: Moment): string
    requires AllScanned(toks) && ValidMoment(m)
  {
    if toks == [] then "" else RenderToken(toks[0], m) + RenderAll(toks[1..], m)
  }

  lemma {:induction false} PrintBlanks(format: string, n: nat, m: Moment, t: Type)
    requires ValidMoment(m) && n <= |format| && forall i :: 0 <= i < n ==> format[i] == ' '
    ensures Print(format, m, t) == Prepend(Spaces(n), Print(format[n..], m, t))
    decreases n
  {
    hide FirstPiece, Print, Prepend;
    if n == 0 {
      assert format[0..] == format;
      EmptyPrefix(Print(format, m, t));
    } else {
      var rest := format[1..];
      PrintBlanks(rest, n - 1, m, t);
      assert rest[n - 1..] == format[n..] && [' '] + Spaces(n - 1) == Spaces(n);
      BlankPiece(format, m, t);
      PrintPiece(format, m, t);
      PrependTwice([' '], Spaces(n - 1), Print(format[n..], m, t));
    }
  }

  lemma BlankPiece(format: string, m: Moment, t: Type)
    requires ValidMoment(m) && format != [] && format[0] == ' '
    ensures FirstPiece(format, m, t) == Some(Piece([' '], 1))
  {}

  lemma EmptyPrefix(r: Option<string>)
    ensures Prepend(Spaces(0), r) == r
  {
    if r.Some? { assert Spaces(0) + r.value == r.value; }
  }

  /** Outside quoted text, only the parser takes an apostrophe for punctuation. */
  predicate NoApostrophe(format: string)
    decreases |format|
  {
    format == [] || (
      && format[0] != '\''
      && (FirstToken(format).Some? ==> NoApostrophe(format[FirstToken(format).value.length..])))
  }

  /** Only the parser takes a backslash in quoted text for an escape. */
  predicate Shared(format: string) { '\\' !in format && NoApostrophe(format) }

  lemma {:induction false} UnquotedPlain(s: string)
    requires '\\' !in s
    ensures Unquoted(s) ==
      match IndexOf(s, '"')
      case None => None
      case Some(e) => Some(Piece(s[..e], e + 1))
    decreases |s|
  {
    if s != [] && s[0] != '"' {
      UnquotedPlain(s[1..]);
      var r := IndexOf(s[1..], '"');
      if r.Some? { assert s[..r.value + 1] == [s[0]] + s[1..][..r.value]; }
    }
  }

  predicate SupportedTokens(toks: seq<Token>, t: Type) {
    forall i :: 0 <= i < |toks| && toks[i].Elem? ==> Supports(t, toks[i].e) && !toks[i].e.YCommaYYY?
  }

  lemma TokensSplit(format: string, toks: seq<Token>)
    requires format != [] && Tokens(format) == Some(toks)
    ensures toks != [] && FirstToken(format).Some?
    ensures var r := FirstToken(format).value; toks[0] == r.token && Tokens(format[r.length..]) == Some(toks[1..])
  {
    var r := FirstToken(format).value;
    var rest := Tokens(format[r.length..]);
    assert ([r.token] + rest.value)[1..] == rest.value;
  }

  lemma FirstScanned(format: string)
    requires format != [] && FirstToken(format).Some?
    ensures WellScanned(FirstToken(format).value.token)
    ensures var r := FirstToken(format).value;
      r.token.Space? ==> (r.length < |format| ==> format[r.length] != ' ')
    ensures FirstToken(format).value.token.Space? <==> format[0] == ' '
  {}

  /** Printing and parsing read the same format. */
  lemma {:induction false} PrintAgrees(format: string, toks: seq<Token>, m: Moment, t: Type)
    requires ValidMoment(m) && Shared(format) && Tokens(format) == Some(toks) && SupportedTokens(toks, t)
    ensures AllScanned(toks) && Print(format, m, t) == Some(RenderAll(toks, m))
    ensures toks != [] ==> format != [] && (toks[0].Space? <==> format[0] == ' ')
    decreases |format|
  {
    if format != [] {
      TokensSplit(format, toks);
      FirstScanned(format);
      var r := FirstToken(format).value;
      var rest := format[r.length..];
      RestSupported(toks, t);
      RestShared(format);
      PrintAgrees(rest, toks[1..], m, t);
      PrintFirst(format, m, t);
      ScannedCons(toks);
      hide *;
      RenderCons(toks, m);
    }
  }

  lemma RestSupported(toks: seq<Token>, t: Type)
    requires toks != [] && SupportedTokens(toks, t)
    ensures SupportedTokens(toks[1..], t)
    ensures toks[0].Elem? ==> Supports(t, toks[0].e) && !toks[0].e.YCommaYYY?
  {}

  lemma RestShared(format: string)
    requires Shared(format) && format != [] && FirstToken(format).Some?
    ensures format[0] != '\'' && Shared(format[FirstToken(format).value.length..])
  {
    hide FirstToken;
  }

  lemma ScannedCons(toks: seq<Token>)
    requires toks != [] && WellScanned(toks[0]) && AllScanned(toks[1..])
    requires |toks| > 1 ==> !(toks[0].Space? && toks[1].Space?)
    ensures AllScanned(toks)
  {
    var rest := toks[1..];
    forall i | 0 <= i < |toks| ensures WellScanned(toks[i]) {
      if i > 0 { assert toks[i] == rest[i - 1]; }
    }
    forall i | 0 <= i < |toks| - 1 ensures !(toks[i].Space? && toks[i + 1].Space?) {
      if i > 0 { assert toks[i] == rest[i - 1] && toks[i + 1] == rest[i]; }
    }
  }

  lemma RenderCons(toks: seq<Token>, m: Moment)
    requires ValidMoment(m) && toks != [] && AllScanned(toks)
    ensures WellScanned(toks[0]) && AllScanned(toks[1..])
    ensures Prepend(RenderToken(toks[0], m), Some(RenderAll(toks[1..], m))) == Some(RenderAll(toks, m))
  {
    hide RenderToken;
  }

  lemma QuotedPiece(format: string, m: Moment, t: Type)
    requires ValidMoment(m) && format != [] && format[0] == '"' && '\\' !in format && FirstToken(format).Some?
    ensures var r := FirstToken(format).value;
      r.token.Literal? && FirstPiece(format, m, t) == Some(Piece(r.token.text, r.length))
  {
    UnquotedPlain(format[1..]);
    var e := IndexOf(format[1..], '"').value;
    assert format[1..][..e] == format[1..1 + e];
  }

  lemma PrintFirst(format: string, m: Moment, t: Type)
    requires ValidMoment(m) && format != [] && '\\' !in format && format[0] != '\'' && FirstToken(format).Some?
    requires var tok := FirstToken(format).value.token;
      WellScanned(tok) && (tok.Elem? ==> Supports(t, tok.e) && !tok.e.YCommaYYY?)
    ensures var r := FirstToken(format).value;
      Print(format, m, t) == Prepend(RenderToken(r.token, m), Print(format[r.length..], m, t))
  {
    var r := FirstToken(format).value;
    hide Print, Supports, Render;
    if format[0] == ' ' {
      PrintBlanks(format, r.length, m, t);
    } else if format[0] == '"' {
      QuotedPiece(format, m, t);
      hide FirstToken, FirstPiece;
      PrintPiece(format, m, t);
    } else {
      if r.token.Elem? { SameMatch(format); }
      PrintPiece(format, m, t);
    }
  }

  lemma PrintPiece(format: string, m: Moment, t: Type)
    requires ValidMoment(m) && format != [] && FirstPiece(format, m, t).Some?
    ensures var p := FirstPiece(format, m, t).value;
      Print(format, m, t) == Prepend(p.text, Print(format[p.length..], m, t))
  {}

  // ----- reading a number back -----

  /** A text that does not go on with a digit. */
  predicate Ends(rest: string) { rest == [] || !Digit(rest[0]) }

  lemma {:induction false} DigitRunOf(a: string, rest: string, max: nat)
    requires AllDigits(a) && |a| <= max && (|a| == max || Ends(rest))
    ensures DigitRun(a + rest, max) == |a|
    decreases |a|
  {
    if a == [] {
      assert a + rest == rest;
    } else {
      assert (a + rest)[1..] == a[1..] + rest;
      DigitRunOf(a[1..], rest, max - 1);
    }
  }

  lemma ReadDigitsOf(a: string, rest: string, min: nat, max: nat)
    requires AllDigits(a) && min <= |a| <= max && (|a| == max || Ends(rest))
    ensures ReadDigits(a + rest, min, max) == Some(Number(ReadDecimal(a), |a|, rest))
  {
    DigitRunOf(a, rest, max);
    hide DigitRun, ReadDecimal;
    assert (a + rest)[..|a|] == a && (a + rest)[|a|..] == rest;
  }

  lemma ReadNumberOf(a: string, rest: string, delimited: bool, max: nat)
    requires AllDigits(a) && 0 < |a| <= max && (delimited && |a| < max ==> Ends(rest))
    ensures ReadNumber(a + rest, delimited, |a|, max) == Some(Number(ReadDecimal(a), |a|, rest))
  {
    if delimited { ReadDigitsOf(a, rest, 1, max); } else { ReadDigitsOf(a, rest, |a|, |a|); }
    hide ReadDigits, ReadDecimal;
  }

  lemma ReadFixed(k: nat, w: nat, rest: string, delimited: bool, max: nat)
    requires 0 < w <= max && k < Pow10(w) && (delimited && w < max ==> Ends(rest))
    ensures ReadNumber(Fixed(k, w) + rest, delimited, w, max) == Some(Number(k, w, rest))
  {
    PaddedRead(k, w);
    hide Padded, Decimal, ReadDecimal, Pow10;
    ReadNumberOf(Fixed(k, w), rest, delimited, max);
  }

  lemma Powers()
    ensures Pow10(0) == 1 && Pow10(1) == 10 && Pow10(2) == 100 && Pow10(3) == 1000
    ensures Pow10(4) == 10000 && Pow10(5) == 100000
    ensures Pow10(9) == 1000000000
  {
    assert Pow10(1) == 10 * Pow10(0) && Pow10(2) == 10 * Pow10(1) && Pow10(3) == 10 * Pow10(2);
    assert Pow10(4) == 10 * Pow10(3) && Pow10(5) == 10 * Pow10(4) && Pow10(6) == 10 * Pow10(5);
    assert Pow10(7) == 10 * Pow10(6) && Pow10(8) == 10 * Pow10(7) && Pow10(9) == 10 * Pow10(8);
  }

  // ----- what an element sets -----

  /** The elements a civil time is read back from. */
  predicate Kept(e: Element) {
    && !Unsupported(e)
    && (PartOf(e) == Year ==> e.YYYY? || e.RRRR?)
  }

  /** The nanoseconds shown by n fraction digits. */
  function Shown(micro: nat, n: FractionDigits): nat { Nanos(Div(micro * 1000, Pow10(9 - n)), n) }

  function Set(f: Fields, e: Element, m: Moment): Fields {
    var c := m.civil;
    match e
    case YYYY | RRRR => f.(year := c.year)
    case MM | MON | MONTH => f.(month := c.month)
    case DD => f.(day := c.day)
    case HH | HH12 => f.(hour := c.hour % 12)
    case HH24 => f.(hour := c.hour)
    case MI => f.(minute := c.minute)
    case SS => f.(second := c.second)
    case SSSSS => f.(hour := c.hour, minute := c.minute, second := c.second)
    case ADotM | PDotM => f.(pm := c.hour >= 12, hasMeridian := true)
    case FF(n) => f.(nano := Shown(c.micro, n))
    case TZH => f.(zone := f.zone.(west := m.offset < 0, hours := Away(m) / 3600, given := true))
    case TZM => f.(zone := f.zone.(minutes := Away(m) % 3600 / 60))
    case _ => f
  }

  lemma FractionRead(micro: nat, n: FractionDigits)
    requires micro < 1_000_000
    ensures var a := Fixed(micro * 1000, 9)[..n];
      |a| == n && AllDigits(a) && ReadDecimal(a) == Div(micro * 1000, Pow10(9 - n))
    ensures |Fixed(micro * 1000, 9)| == 9
  {
    Powers();
    PaddedRead(micro * 1000, 9);
    assert |Fixed(micro * 1000, 9)| == 9;
    hide *;
    PrefixRead(Fixed(micro * 1000, 9), n);
  }

  /** The first digits of a number are its quotient by a power of ten. */
  lemma PrefixRead(s: string, n: nat)
    requires AllDigits(s) && n <= |s|
    ensures AllDigits(s[..n]) && ReadDecimal(s[..n]) == Div(ReadDecimal(s), Pow10(|s| - n))
  {
    hide ReadDecimal, Pow10;
    assert s == s[..n] + s[n..];
    ReadConcat(s[..n], s[n..]);
    ReadBelow(s[n..]);
    Quotient(ReadDecimal(s[..n]), ReadDecimal(s[n..]), Pow10(|s| - n));
  }

  /** Six or more fraction digits show every microsecond. */
  lemma ShownWhole(micro: nat, n: FractionDigits)
    requires n >= 6
    ensures Shown(micro, n) == micro * 1000
  {
    Powers();
    var p := Pow10(9 - n);
    assert p == 1000 || p == 100 || p == 10 || p == 1 by {
      if n == 6 { assert 9 - n == 3; } else if n == 7 { assert 9 - n == 2; } else if n == 8 { assert 9 - n == 1; }
    }
    hide Pow10;
    Divisible(micro, p);
    assert micro * 1000 / 1000 == micro;
  }

  lemma Divisible(micro: nat, p: nat)
    requires p == 1000 || p == 100 || p == 10 || p == 1
    ensures Div(micro * 1000, p) * p == micro * 1000
  {
    var k := if p == 1000 then 1 else if p == 100 then 10 else if p == 10 then 100 else 1000;
    DivisibleBy(micro, k, p);
  }

  lemma DivisibleBy(x: nat, k: nat, p: nat)
    requires p > 0 && k * p == 1000
    ensures Div(x * 1000, p) * p == x * 1000
  {
    assert x * (k * p) == (x * k) * p;
    Quotient(x * k, 0, p);
  }

  // ----- reading an element back -----

  predicate NumberElement(e: Element) {
    e.DD? || e.HH? || e.HH12? || e.HH24? || e.MI? || e.SS? || e.SSSSS? || e.FF? || e.TZM?
  }

  lemma ReadSimple(e: Element, raw: string, m: Moment, rest: string, delimited: bool, f: Fields)
    requires ValidMoment(m) && raw != [] && NumberElement(e)
    ensures var v := ReadNumber(Render(e, raw, m) + rest, delimited, DigitWidth(e), DigitWidth(e));
      v.Some? && v.value.digits <= 9 && v.value.rest == rest && SetNumber(e, v.value, f) == Some(Set(f, e, m))
  {
    Powers();
    var c := m.civil;
    hide Pow10, ReadNumber, Fixed;
    match e
    case DD => ReadFixed(c.day, 2, rest, delimited, 2);
    case HH | HH12 => ReadFixed(Hour12(c.hour), 2, rest, delimited, 2);
    case HH24 => ReadFixed(c.hour, 2, rest, delimited, 2);
    case MI => ReadFixed(c.minute, 2, rest, delimited, 2);
    case SS => ReadFixed(c.second, 2, rest, delimited, 2);
    case SSSSS =>
      ReadFixed(SecondOfDay(c), 5, rest, delimited, 5);
      SplitSeconds(c.hour, c.minute, c.second);
    case FF(n) =>
      FractionRead(c.micro, n);
      ReadNumberOf(Fixed(c.micro * 1000, 9)[..n], rest, delimited, n);
    case TZM =>
      ReadFixed(Away(m) % 3600 / 60, 2, rest, delimited, 2);
  }

  lemma ReadZone(raw: string, m: Moment, rest: string, delimited: bool, f: Fields)
    requires ValidMoment(m) && raw != []
    ensures ReadZoneHour(Render(TZH, raw, m) + rest, delimited, f) == Some(Progress(Set(f, TZH, m), rest))
  {
    Powers();
    var a := Fixed(Away(m) / 3600, 2);
    var s := Render(TZH, raw, m) + rest;
    assert s[1..] == a + rest && s[0] == if m.offset < 0 then '-' else '+';
    hide Pow10, ReadNumber, Fixed;
    ReadFixed(Away(m) / 3600, 2, rest, delimited, 2);
  }

  lemma SplitSeconds(h: nat, m: nat, s: nat)
    requires h < 24 && m < 60 && s < 60
    ensures var v := h * 3600 + m * 60 + s; v < 86400 && v / 3600 == h && v % 3600 / 60 == m && v % 60 == s
  {
    var v := h * 3600 + m * 60 + s;
    assert v % 60 == s by { assert v == (h * 60 + m) * 60 + s; }
    assert v % 3600 == m * 60 + s;
  }

  /** The first three letters of a month's name, in lower case. */
  function MonthKey(m: nat): (char, char, char)
    requires 1 <= m <= 12
  {
    var s := MonthName(m);
    (LowerChar(s[0]), LowerChar(s[1]), LowerChar(s[2]))
  }

  function MonthOf(k: (char, char, char)): nat {
    if k.0 == 'f' then 2 else if k.0 == 's' then 9 else if k.0 == 'o' then 10 else if k.0 == 'n' then 11
    else if k.0 == 'd' then 12
    else if k.0 == 'j' then if k.1 == 'a' then 1 else if k.2 == 'n' then 6 else 7
    else if k.0 == 'm' then if k.2 == 'r' then 3 else 5
    else if k.1 == 'p' then 4 else 8
  }

  lemma MonthOfKey(m: nat)
    requires 1 <= m <= 12
    ensures MonthOf(MonthKey(m)) == m
  {}

  /** A text that starts with a month's name starts with no other month's. */
  lemma OneMonth(a: nat, b: nat, s: string, short: bool)
    requires 1 <= a <= 12 && 1 <= b <= 12 && StartsWith(s, MonthText(a, short)) && StartsWith(s, MonthText(b, short))
    ensures a == b
  {
    MonthOfKey(a);
    MonthOfKey(b);
    StartKey(a, s, short);
    StartKey(b, s, short);
  }

  lemma StartKey(a: nat, s: string, short: bool)
    requires 1 <= a <= 12 && StartsWith(s, MonthText(a, short))
    ensures |s| >= 3 && MonthKey(a) == (LowerChar(s[0]), LowerChar(s[1]), LowerChar(s[2]))
  {
    hide MonthName, LowerChar;
    var w := MonthText(a, short);
    assert s[..|w|][0] == s[0] && s[..|w|][1] == s[1] && s[..|w|][2] == s[2];
  }

  lemma {:induction false} FindMonthOf(m: nat, s: string, short: bool, j: nat)
    requires 1 <= j <= m <= 12 && StartsWith(s, MonthText(m, short))
    ensures FindMonth(s, short, j) == Some(m)
    decreases m - j
  {
    hide StartsWith, MonthText;
    if StartsWith(s, MonthText(j, short)) { OneMonth(j, m, s, short); } else { FindMonthOf(m, s, short, j + 1); }
  }

  lemma ReadMonthName(e: Element, raw: string, m: Moment, rest: string, delimited: bool, f: Fields)
    requires ValidMoment(m) && raw != [] && (e.MON? || e.MONTH?)
    ensures ReadMonth(e, Render(e, raw, m) + rest, delimited, f) == Some(Progress(f.(month := m.civil.month), rest))
  {
    var w := MonthText(m.civil.month, e.MON?);
    var a := Render(e, raw, m);
    assert a == TextCase(raw, w);
    TextCaseLetters(raw, w);
    var s := a + rest;
    assert s[..|w|] == a && s[|w|..] == rest;
    FindMonthOf(m.civil.month, s, e.MON?, 1);
  }

  lemma UpperLower(c: char)
    requires UpperLetter(c) || c == '.'
    ensures UpperChar(LowerChar(c)) == c && UpperChar(c) == c
  {}

  lemma ReadMeridian(raw: string, hour: nat, rest: string, f: Fields)
    requires raw != []
    ensures ReadDayHalf(Meridian(raw, true, hour) + rest, f)
      == Some(Progress(f.(pm := hour >= 12, hasMeridian := true), rest))
  {
    var a := Meridian(raw, true, hour);
    var c := if hour >= 12 then 'P' else 'A';
    var s := [c, '.', 'M', '.'];
    assert Upper(a) == s by {
      forall i | 0 <= i < 4 ensures UpperChar(a[i]) == s[i] { UpperLower(s[i]); }
    }
    assert (a + rest)[..4] == a && (a + rest)[4..] == rest;
    assert s == if hour >= 12 then "P.M." else "A.M.";
  }

  lemma ReadElementOf(e: Element, raw: string, m: Moment, rest: string, delimited: bool, f: Fields, now: Today)
    requires ValidMoment(m) && raw != [] && Kept(e) && (delimited && PartOf(e) == Year ==> Ends(rest))
    ensures ReadElement(e, Render(e, raw, m) + rest, delimited, f, now) == Some(Progress(Set(f, e, m), rest))
  {
    hide ReadNumber, ReadMonth, ReadDayHalf, ReadZoneHour, SetNumber, Fixed, TextCase, Meridian, Pow10;
    if e.TZH? {
      ReadZone(raw, m, rest, delimited, f);
    } else if NumberElement(e) {
      ReadSimple(e, raw, m, rest, delimited, f);
    } else if e.MON? || e.MONTH? {
      ReadMonthName(e, raw, m, rest, delimited, f);
    } else if e.ADotM? || e.PDotM? {
      ReadMeridian(raw, m.civil.hour, rest, f);
    } else if e.MM? {
      ReadMonthNumber(raw, m, rest, delimited, f);
    } else {
      Powers();
      ReadFixed(m.civil.year, 4, rest, delimited, 5);
    }
  }

  lemma ReadMonthNumber(raw: string, m: Moment, rest: string, delimited: bool, f: Fields)
    requires ValidMoment(m) && raw != []
    ensures ReadMonth(MM, Render(MM, raw, m) + rest, delimited, f) == Some(Progress(f.(month := m.civil.month), rest))
  {
    Powers();
    hide ReadNumber, Fixed, Pow10;
    ReadFixed(m.civil.month, 2, rest, delimited, 2);
  }

  // ----- the characters an element prints -----

  predicate NoSpace(s: string) { s != [] && forall i :: 0 <= i < |s| ==> !WhiteSpace(s[i]) }

  lemma DigitsNoSpace(s: string)
    requires AllDigits(s) && s != []
    ensures NoSpace(s)
  {}

  predicate Letter(c: char) { 'a' <= LowerChar(c) <= 'z' }

  lemma LetterNoSpace(c: char)
    requires Letter(c) || c == '.'
    ensures !WhiteSpace(c) && !Digit(c)
  {}

  lemma MonthLetters(m: nat, i: nat)
    requires 1 <= m <= 12 && i < |MonthName(m)|
    ensures Letter(MonthName(m)[i])
  {}

  lemma MonthTextLetters(raw: string, m: nat, short: bool)
    requires 1 <= m <= 12 && raw != []
    ensures var s := TextCase(raw, MonthText(m, short)); NoSpace(s) && !Digit(s[0])
  {
    var w := MonthText(m, short);
    TextCaseLetters(raw, w);
    var s := TextCase(raw, w);
    hide TextCase, LowerChar, WhiteSpace, Digit;
    forall i | 0 <= i < |s| ensures !WhiteSpace(s[i]) && !Digit(s[i]) {
      MonthLetters(m, i);
      SameLetter(s[i], w[i]);
      LetterNoSpace(s[i]);
    }
  }

  lemma SameLetter(c: char, d: char)
    requires LowerChar(c) == LowerChar(d) && Letter(d)
    ensures Letter(c)
  {}

  lemma MeridianText(raw: string, hour: nat)
    requires raw != []
    ensures var s := Meridian(raw, true, hour); NoSpace(s) && !Digit(s[0])
  {
    var s := Meridian(raw, true, hour);
    assert |s| == 4;
    forall i | 0 <= i < 4 ensures !WhiteSpace(s[i]) && !Digit(s[i]) { LetterNoSpace(s[i]); }
  }

  lemma FixedText(k: nat, w: nat)
    requires w > 0 && k < Pow10(w)
    ensures NoSpace(Fixed(k, w)) && Digit(Fixed(k, w)[0])
  {
    PaddedRead(k, w);
    hide Padded, Decimal, ReadDecimal;
    DigitsNoSpace(Fixed(k, w));
  }

  lemma ElementText(e: Element, raw: string, m: Moment)
    requires ValidMoment(m) && raw != [] && Kept(e)
    ensures NoSpace(Render(e, raw, m))
    ensures Numeric(Elem(e, raw)) <==> Digit(Render(e, raw, m)[0])
  {
    var c := m.civil;
    if e.MON? || e.MONTH? {
      MonthTextLetters(raw, c.month, e.MON?);
    } else if e.ADotM? || e.PDotM? {
      MeridianText(raw, c.hour);
    } else if e.TZH? {
      ZoneText(raw, m);
    } else if e.FF? {
      FractionRead(c.micro, e.n);
      DigitsNoSpace(Render(e, raw, m));
    } else {
      NumberText(e, raw, m);
    }
  }

  lemma NumberText(e: Element, raw: string, m: Moment)
    requires ValidMoment(m) && raw != [] && Kept(e)
    requires !e.MON? && !e.MONTH? && !e.ADotM? && !e.PDotM? && !e.FF? && !e.TZH?
    ensures NoSpace(Render(e, raw, m)) && Digit(Render(e, raw, m)[0])
  {
    Powers();
    var c := m.civil;
    hide Pow10, Fixed, NoSpace;
    match e
    case YYYY | RRRR => FixedText(c.year, 4);
    case MM => FixedText(c.month, 2);
    case DD => FixedText(c.day, 2);
    case HH | HH12 => FixedText(Hour12(c.hour), 2);
    case HH24 => FixedText(c.hour, 2);
    case MI => FixedText(c.minute, 2);
    case SS => FixedText(c.second, 2);
    case SSSSS => FixedText(SecondOfDay(c), 5);
    case TZM => FixedText(Away(m) % 3600 / 60, 2);
  }

  lemma ZoneText(raw: string, m: Moment)
    requires ValidMoment(m) && raw != []
    ensures NoSpace(Render(TZH, raw, m)) && !Digit(Render(TZH, raw, m)[0])
  {
    Powers();
    hide Pow10, Fixed;
    FixedText(Away(m) / 3600, 2);
  }
}

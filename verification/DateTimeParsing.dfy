/**
 CAST(STRING AS DATE, DATETIME, TIME or TIMESTAMP FORMAT '...'): the format's tokens, the rules for them, and reading
 a text.
 */
module DateTimeParsing {
  import opened Sequences
  import opened Decimals
  import opened Ascii
  import opened DateTimeElements
  import opened DateTimePrinting

  // ----- tokens -----

  /** raw is the element as spelled in the format and n the length of a run of blanks; reading looks at neither. */
  datatype Token = Elem(e: Element, raw: string) | Literal(text: string) | Space(n: nat)

  datatype Scanned = Scanned(token: Token, length: nat)

  /** Quoted text up to the closing quote, a backslash taking the next character as it is. */
  function Unquoted(s: string): (r: Option<Piece>)
    ensures r.Some? ==> 0 < r.value.length <= |s|
    decreases |s|
  {
    if s == [] then None
    else if s[0] == '"' then Some(Piece("", 1))
    else
      var n := if s[0] == '\\' && 1 < |s| then 2 else 1;
      var r := Unquoted(s[n..]);
      if r.None? then None else Some(Piece([s[n - 1]] + r.value.text, n + r.value.length))
  }

  function Blanks(s: string): (n: nat)
    ensures n <= |s| && (forall i :: 0 <= i < n ==> s[i] == ' ') && (n < |s| ==> s[n] != ' ')
  {
    if s == [] || s[0] != ' ' then 0 else 1 + Blanks(s[1..])
  }

  predicate Unsupported(e: Element) { e.DDD? || e.DAY? || e.DY? || e.D? || e.Q? || e.AM? || e.PM? }

  function FirstToken(format: string): (r: Option<Scanned>)
    requires format != []
    ensures r.Some? ==> 0 < r.value.length <= |format|
  {
    var c := format[0];
    if c == '"' then
      var r := Unquoted(format[1..]);
      if r.None? then None else Some(Scanned(Literal(r.value.text), 1 + r.value.length))
    else if c == ' ' then
      Some(Scanned(Space(Blanks(format)), Blanks(format)))
    else if Punctuation(c) || c == '\'' then Some(Scanned(Literal([c]), 1))
    else
      var e := FirstMatch(PARSE_ELEMENTS, format);
      if e.None? || Unsupported(e.value) then None
      else
        var n := |Name(e.value)|;
        Some(Scanned(Elem(e.value, format[..n]), n))
  }

  function Tokens(format: string): Option<seq<Token>>
    decreases |format|
  {
    if format == [] then Some([])
    else
      var r := FirstToken(format);
      if r.None? then None else AddFirst([r.value.token], Tokens(format[r.value.length..]))
  }

  function AddFirst(ts: seq<Token>, r: Option<seq<Token>>): Option<seq<Token>> {
    if r.None? then None else Some(ts + r.value)
  }

  lemma TokensStep(format: string, i: nat, toks: seq<Token>)
    requires i < |format|
    ensures var r := FirstToken(format[i..]);
      AddFirst(toks, Tokens(format[i..]))
      == if r.None? then None else AddFirst(toks + [r.value.token], Tokens(format[i + r.value.length..]))
  {
    var r := FirstToken(format[i..]);
    if r.Some? {
      var rest := Tokens(format[i + r.value.length..]);
      assert format[i..][r.value.length..] == format[i + r.value.length..];
      if rest.Some? { assert toks + ([r.value.token] + rest.value) == (toks + [r.value.token]) + rest.value; }
    }
  }

  lemma TokensEnds(format: string, toks: seq<Token>)
    ensures Tokens(format) == AddFirst([], Tokens(format[0..]))
    ensures AddFirst(toks, Tokens("")) == Some(toks)
  {
    hide FirstToken;
    assert format[0..] == format && toks + [] == toks;
    if Tokens(format).Some? { assert [] + Tokens(format).value == Tokens(format).value; }
  }

  method TokenizeCastParseFormat(format: string) returns (r: Option<seq<Token>>)
    ensures r == Tokens(format)
  {
    hide *;
    r := Some([]);
    var i: nat := 0;
    TokensEnds(format, []);
    while i < |format|
      invariant i <= |format| && r.Some? && Tokens(format) == AddFirst(r.value, Tokens(format[i..]))
    {
      TokensStep(format, i, r.value);
      var next := FirstToken(format[i..]);
      if next.None? { return None; }
      r := Some(r.value + [next.value.token]);
      i := i + next.value.length;
    }
    assert format[i..] == "";
    TokensEnds(format, r.value);
  }

  // ----- the rules for a format -----

  datatype Part = Year | Month | Day | Hour | Minute | Second | DaySecond | DayHalf | Fraction | ZoneHour | ZoneMinute

  function PartOf(e: Element): Part {
    match e
    case YYYY | YYY | YY | Y | YCommaYYY | RRRR | RR => Year
    case MM | MON | MONTH => Month
    case DD => Day
    case HH | HH12 | HH24 => Hour
    case MI => Minute
    case SS => Second
    case SSSSS => DaySecond
    case ADotM | PDotM => DayHalf
    case TZH => ZoneHour
    case TZM => ZoneMinute
    case _ => Fraction
  }

  predicate PartAllowed(t: Type, p: Part) {
    match p
    case Year | Month | Day => t != TIME
    case ZoneHour | ZoneMinute => t == TIMESTAMP
    case _ => t != DATE
  }

  predicate SetsPart(tok: Token, p: Part) { tok.Elem? && PartOf(tok.e) == p }

  predicate HasPart(toks: seq<Token>, p: Part) { exists i :: 0 <= i < |toks| && SetsPart(toks[i], p) }

  predicate HasElement(toks: seq<Token>, e: Element) { exists i :: 0 <= i < |toks| && toks[i].Elem? && toks[i].e == e }

  /** No part is set twice. */
  predicate DistinctParts(toks: seq<Token>) {
    forall i, j :: 0 <= i < j < |toks| && toks[i].Elem? && toks[j].Elem? ==> PartOf(toks[i].e) != PartOf(toks[j].e)
  }

  predicate AllAllowed(toks: seq<Token>, t: Type) {
    forall i :: 0 <= i < |toks| && toks[i].Elem? ==> PartAllowed(t, PartOf(toks[i].e))
  }

  /** A 12-hour element and a meridian indicator come together, and the second of the day comes alone. */
  predicate HoursAgree(toks: seq<Token>) {
    && (HasElement(toks, HH) || HasElement(toks, HH12) <==> HasPart(toks, DayHalf))
    && !(HasElement(toks, HH24) && HasPart(toks, DayHalf))
    && (HasPart(toks, DaySecond) ==>
      !HasPart(toks, Hour) && !HasPart(toks, Minute) && !HasPart(toks, Second) && !HasPart(toks, DayHalf))
  }

  predicate ZonesAgree(toks: seq<Token>) { HasPart(toks, ZoneMinute) ==> HasPart(toks, ZoneHour) }

  predicate ValidModel(toks: seq<Token>, t: Type) {
    DistinctParts(toks) && AllAllowed(toks, t) && HoursAgree(toks) && ZonesAgree(toks)
  }

  /** The element that sets each part of the first tokens. */
  ghost predicate PartsOf(toks: seq<Token>, parts: map<Part, Element>) {
    && (forall p :: p in parts <==> HasPart(toks, p))
    && (forall p :: p in parts ==> PartOf(parts[p]) == p && HasElement(toks, parts[p]))
  }

  lemma HasPartSnoc(toks: seq<Token>, i: nat, p: Part)
    requires i < |toks|
    ensures HasPart(toks[..i + 1], p) <==> HasPart(toks[..i], p) || SetsPart(toks[i], p)
  {
    var s, t := toks[..i], toks[..i + 1];
    assert forall j :: 0 <= j < i ==> t[j] == s[j];
    assert t[i] == toks[i];
  }

  lemma HasPartCons(toks: seq<Token>, p: Part)
    requires toks != []
    ensures HasPart(toks, p) <==> SetsPart(toks[0], p) || HasPart(toks[1..], p)
  {
    var t := toks[1..];
    assert forall i :: 0 <= i < |t| ==> t[i] == toks[i + 1];
    if HasPart(toks, p) && !SetsPart(toks[0], p) {
      var i :| 0 <= i < |toks| && SetsPart(toks[i], p);
      assert SetsPart(t[i - 1], p);
    }
  }

  lemma HasElementSnoc(toks: seq<Token>, i: nat, e: Element)
    requires i < |toks| && (HasElement(toks[..i], e) || (toks[i].Elem? && toks[i].e == e))
    ensures HasElement(toks[..i + 1], e)
  {
    var s, t := toks[..i], toks[..i + 1];
    assert forall j :: 0 <= j < i ==> t[j] == s[j];
    assert t[i] == toks[i];
  }

  lemma PartsNext(toks: seq<Token>, i: nat, parts: map<Part, Element>, t: Type)
    requires i < |toks| && PartsOf(toks[..i], parts) && DistinctParts(toks[..i]) && AllAllowed(toks[..i], t)
    requires toks[i].Elem? ==> PartOf(toks[i].e) !in parts && PartAllowed(t, PartOf(toks[i].e))
    ensures DistinctParts(toks[..i + 1]) && AllAllowed(toks[..i + 1], t)
    ensures PartsOf(toks[..i + 1], if toks[i].Elem? then parts[PartOf(toks[i].e) := toks[i].e] else parts)
  {
    hide PartOf, PartAllowed;
    forall p ensures HasPart(toks[..i + 1], p) <==> HasPart(toks[..i], p) || SetsPart(toks[i], p) {
      HasPartSnoc(toks, i, p);
    }
    forall e | HasElement(toks[..i], e) || (toks[i].Elem? && toks[i].e == e) ensures HasElement(toks[..i + 1], e) {
      HasElementSnoc(toks, i, e);
    }
    DistinctNext(toks, i, parts);
    hide HasElement;
  }

  lemma DistinctNext(toks: seq<Token>, i: nat, parts: map<Part, Element>)
    requires i < |toks| && PartsOf(toks[..i], parts) && DistinctParts(toks[..i])
    requires toks[i].Elem? ==> PartOf(toks[i].e) !in parts
    ensures DistinctParts(toks[..i + 1])
  {
    hide PartOf;
    if toks[i].Elem? {
      var s := toks[..i];
      forall j | 0 <= j < i && toks[j].Elem? ensures PartOf(toks[j].e) != PartOf(toks[i].e) {
        assert s[j] == toks[j];
        assert SetsPart(s[j], PartOf(toks[j].e));
        assert HasPart(s, PartOf(toks[j].e));
      }
    }
  }

  lemma PartTwice(toks: seq<Token>, i: nat, p: Part)
    requires i < |toks| && SetsPart(toks[i], p) && HasPart(toks[..i], p)
    ensures !DistinctParts(toks)
  {
    var j :| 0 <= j < i && SetsPart(toks[..i][j], p);
    assert toks[j] == toks[..i][j];
  }

  method CheckParts(toks: seq<Token>, t: Type) returns (ok: bool, parts: map<Part, Element>)
    ensures ok <==> DistinctParts(toks) && AllAllowed(toks, t)
    ensures ok ==> PartsOf(toks, parts)
  {
    ok, parts := true, map[];
    var i: nat := 0;
    while i < |toks|
      invariant i <= |toks| && PartsOf(toks[..i], parts) && DistinctParts(toks[..i]) && AllAllowed(toks[..i], t)
    {
      hide PartsOf, DistinctParts;
      if toks[i].Elem? {
        var p := PartOf(toks[i].e);
        PartsHave(toks[..i], parts, p);
        if p in parts {
          PartTwice(toks, i, p);
          ok := false;
          return;
        }
        if !PartAllowed(t, p) {
          ok := false;
          return;
        }
        PartsNext(toks, i, parts, t);
        parts := parts[p := toks[i].e];
      } else {
        PartsNext(toks, i, parts, t);
      }
      i := i + 1;
    }
    assert toks[..i] == toks;
  }

  lemma PartsHave(toks: seq<Token>, parts: map<Part, Element>, p: Part)
    requires PartsOf(toks, parts)
    ensures p in parts <==> HasPart(toks, p)
  {}

  lemma PartElement(toks: seq<Token>, parts: map<Part, Element>, e: Element)
    requires PartsOf(toks, parts) && DistinctParts(toks)
    ensures HasElement(toks, e) <==> PartOf(e) in parts && parts[PartOf(e)] == e
  {
    hide PartOf;
    if HasElement(toks, e) {
      var i :| 0 <= i < |toks| && toks[i].Elem? && toks[i].e == e;
      assert SetsPart(toks[i], PartOf(e));
      assert HasPart(toks, PartOf(e));
      var d := parts[PartOf(e)];
      var j :| 0 <= j < |toks| && toks[j].Elem? && toks[j].e == d;
    }
  }

  lemma HoursFromParts(toks: seq<Token>, parts: map<Part, Element>)
    requires PartsOf(toks, parts) && DistinctParts(toks)
    ensures HoursAgree(toks) <==>
      && (Hour in parts && parts[Hour] == HH24 ==> DayHalf !in parts)
      && (Hour in parts && parts[Hour] != HH24 ==> DayHalf in parts)
      && (DayHalf in parts ==> Hour in parts)
      && (DaySecond in parts ==> Hour !in parts && Minute !in parts && Second !in parts && DayHalf !in parts)
  {
    PartElement(toks, parts, HH);
    PartElement(toks, parts, HH12);
    PartElement(toks, parts, HH24);
    assert PartOf(HH) == PartOf(HH12) == PartOf(HH24) == Hour;
    if Hour in parts { assert PartOf(parts[Hour]) == Hour; HourElement(parts[Hour]); }
    hide HasPart, HasElement, DistinctParts, PartOf;
  }

  lemma HourElement(e: Element)
    requires PartOf(e) == Hour
    ensures e == HH || e == HH12 || e == HH24
  {}

  method ValidateCastParseModel(toks: seq<Token>, t: Type) returns (ok: bool)
    ensures ok <==> ValidModel(toks, t)
  {
    var parts;
    ok, parts := CheckParts(toks, t);
    if !ok { return; }
    HoursFromParts(toks, parts);
    PartsHave(toks, parts, ZoneMinute);
    PartsHave(toks, parts, ZoneHour);
    hide *;
    ok := true;
    var hasMeridian := DayHalf in parts;
    if Hour in parts && parts[Hour] == HH24 && hasMeridian { ok := false; }
    if Hour in parts && parts[Hour] != HH24 && !hasMeridian { ok := false; }
    if hasMeridian && (Hour !in parts || parts[Hour] == HH24) { ok := false; }
    if DaySecond in parts && (Hour in parts || Minute in parts || Second in parts || hasMeridian) { ok := false; }
    if ZoneMinute in parts && ZoneHour !in parts { ok := false; }
    ModelParts(toks, t);
  }

  lemma ModelParts(toks: seq<Token>, t: Type)
    ensures ValidModel(toks, t) <==>
      (DistinctParts(toks) && AllAllowed(toks, t) && HoursAgree(toks) &&
       (HasPart(toks, ZoneMinute) ==> HasPart(toks, ZoneHour)))
  {}

  // ----- reading a text -----

  datatype Fields = Fields(
    year: int, month: nat, day: nat, hour: nat, minute: nat, second: nat, nano: nat, pm: bool, hasMeridian: bool,
    zone: Zone)

  datatype Zone = Zone(west: bool, hours: nat, minutes: nat, given: bool)

  const NO_ZONE: Zone := Zone(false, 0, 0, false)

  /** The current date, for missing year and month. */
  datatype Today = Today(year: nat, month: nat)

  function Missing(now: Today): Fields { Fields(now.year, now.month, 1, 0, 0, 0, 0, false, false, NO_ZONE) }

  function DigitRun(s: string, max: nat): (n: nat)
    ensures n <= max && n <= |s| && AllDigits(s[..n]) && (n < max && n < |s| ==> !Digit(s[n]))
  {
    if max == 0 || s == [] || !Digit(s[0]) then 0
    else
      var n := DigitRun(s[1..], max - 1);
      assert s[..n + 1] == [s[0]] + s[1..][..n];
      n + 1
  }

  /** A number and what follows it. */
  datatype Number = Number(value: nat, digits: nat, rest: string)

  function ReadDigits(s: string, min: nat, max: nat): Option<Number> {
    var n := DigitRun(s, max);
    if n < min then None else Some(Number(ReadDecimal(s[..n]), n, s[n..]))
  }

  /** A number whose end the format marks may be shorter than its full width. */
  function ReadNumber(s: string, delimited: bool, width: nat, max: nat): Option<Number> {
    if delimited then ReadDigits(s, 1, max) else ReadDigits(s, width, width)
  }

  datatype Progress = Progress(fields: Fields, rest: string)

  function ReadYear(e: Element, s: string, delimited: bool, f: Fields, now: Today): Option<Progress>
    requires PartOf(e) == Year
  {
    if e.YYYY? || e.RRRR? then
      var v := ReadNumber(s, delimited, 4, 5);
      if v.None? then None else Some(Progress(f.(year := v.value.value), v.value.rest))
    else if e.YCommaYYY? then
      var hi := ReadDigits(s, 1, 2);
      if hi.None? || hi.value.rest == "" || hi.value.rest[0] != ',' then None
      else
        var lo := ReadDigits(hi.value.rest[1..], 3, 3);
        if lo.None? then None
        else Some(Progress(f.(year := hi.value.value * 1000 + lo.value.value), lo.value.rest))
    else if e.RR? then
      var v := ReadDigits(s, 2, 2);
      if v.None? then None
      else Some(Progress(f.(year := Century(now.year, v.value.value) + v.value.value), v.value.rest))
    else
      var w := |Name(e)|;
      var v := ReadDigits(s, w, w);
      if v.None? then None
      else Some(Progress(f.(year := now.year / Pow10(w) * Pow10(w) + v.value.value), v.value.rest))
  }

  /** The century nearest to now for a two-digit year. */
  function Century(year: nat, v: nat): int {
    year / 100 * 100 + if v < 50 && year % 100 >= 50 then 100 else if v >= 50 && year % 100 < 50 then -100 else 0
  }

  /** The first month from m on whose name, or its first three letters, the text starts with. */
  function FindMonth(s: string, short: bool, m: nat): (r: Option<nat>)
    requires 1 <= m <= 13
    ensures r.Some? ==> m <= r.value <= 12 && |MonthText(r.value, short)| <= |s|
    decreases 13 - m
  {
    if m == 13 then None
    else if StartsWith(s, MonthText(m, short)) then Some(m)
    else FindMonth(s, short, m + 1)
  }

  function MonthText(m: nat, short: bool): (s: string)
    requires 1 <= m <= 12
  {
    if short then MonthName(m)[..3] else MonthName(m)
  }

  function ReadMonth(e: Element, s: string, delimited: bool, f: Fields): Option<Progress>
    requires PartOf(e) == Month
  {
    if e.MM? then
      var v := ReadNumber(s, delimited, 2, 2);
      if v.None? then None else Some(Progress(f.(month := v.value.value), v.value.rest))
    else
      var m := FindMonth(s, e.MON?, 1);
      if m.None? then None
      else Some(Progress(f.(month := m.value), s[|MonthText(m.value, e.MON?)|..]))
  }

  function ReadDayHalf(s: string, f: Fields): Option<Progress> {
    if |s| < 4 then None
    else if Upper(s[..4]) == "A.M." then Some(Progress(f.(pm := false, hasMeridian := true), s[4..]))
    else if Upper(s[..4]) == "P.M." then Some(Progress(f.(pm := true, hasMeridian := true), s[4..]))
    else None
  }

  /** A blank stands for a plus sign. */
  function ReadZoneHour(s: string, delimited: bool, f: Fields): Option<Progress> {
    if s == "" || (s[0] != '+' && s[0] != ' ' && s[0] != '-') then None
    else
      var v := ReadNumber(s[1..], delimited, 2, 2);
      if v.None? then None
      else
        var zone := f.zone.(west := s[0] == '-', hours := v.value.value, given := true);
        Some(Progress(f.(zone := zone), v.value.rest))
  }

  /** Digits below a microsecond are cut off. */
  function Nanos(v: nat, digits: nat): nat
    requires digits <= 9
  {
    v * Pow10(9 - digits) / 1000 * 1000
  }

  function SetNumber(e: Element, v: Number, f: Fields): Option<Fields>
    requires v.digits <= 9
  {
    match e
    case DD => Some(f.(day := v.value))
    case HH | HH12 => if v.value < 1 || v.value > 12 then None else Some(f.(hour := v.value % 12))
    case HH24 => Some(f.(hour := v.value))
    case MI => Some(f.(minute := v.value))
    case SS => Some(f.(second := v.value))
    case SSSSS =>
      if v.value >= 86400 then None
      else Some(f.(hour := v.value / 3600, minute := v.value % 3600 / 60, second := v.value % 60))
    case FF(_) => Some(f.(nano := Nanos(v.value, v.digits)))
    case TZM => if v.value > 59 then None else Some(f.(zone := f.zone.(minutes := v.value)))
    case _ => None
  }

  function DigitWidth(e: Element): (n: nat)
    ensures n <= 9
  {
    match e
    case SSSSS => 5
    case FF(n) => n
    case _ => 2
  }

  function ReadElement(e: Element, s: string, delimited: bool, f: Fields, now: Today): Option<Progress> {
    if PartOf(e) == Year then ReadYear(e, s, delimited, f, now)
    else if PartOf(e) == Month then ReadMonth(e, s, delimited, f)
    else if PartOf(e) == DayHalf then ReadDayHalf(s, f)
    else if PartOf(e) == ZoneHour then ReadZoneHour(s, delimited, f)
    else
      var v := ReadNumber(s, delimited, DigitWidth(e), DigitWidth(e));
      if v.None? then None
      else
        var g := SetNumber(e, v.value, f);
        if g.None? then None else Some(Progress(g.value, v.value.rest))
  }

  /** The white space of Unicode. */
  predicate WhiteSpace(c: char) {
    || c == ' ' || '\t' <= c <= '\r' || c == '\U{0085}' || c == '\U{00A0}' || c == '\U{1680}'
    || '\U{2000}' <= c <= '\U{200A}' || c == '\U{2028}' || c == '\U{2029}' || c == '\U{202F}' || c == '\U{205F}'
    || c == '\U{3000}'
  }

  function SkipSpace(s: string): (r: string)
    ensures |r| <= |s|
  {
    if s == [] || !WhiteSpace(s[0]) then s else SkipSpace(s[1..])
  }

  function TrimEnd(s: string): string {
    if s == [] || !WhiteSpace(s[|s| - 1]) then s else TrimEnd(s[..|s| - 1])
  }

  function Trim(s: string): string { TrimEnd(SkipSpace(s)) }

  /** An element that reads digits, so that the number before it has no mark at its end. */
  predicate Numeric(tok: Token) {
    tok.Elem? && !tok.e.MON? && !tok.e.MONTH? && !tok.e.ADotM? && !tok.e.PDotM? && !tok.e.TZH?
  }

  predicate Delimited(rest: seq<Token>) { rest == [] || !Numeric(rest[0]) }

  function ReadToken(tok: Token, rest: seq<Token>, s: string, f: Fields, now: Today): Option<Progress> {
    match tok
    case Space(_) => if SkipSpace(s) == s then None else Some(Progress(f, SkipSpace(s)))
    case Literal(text) => if text <= s then Some(Progress(f, s[|text|..])) else None
    case Elem(e, _) => ReadElement(e, s, Delimited(rest), f, now)
  }

  /** The fields after all tokens, and what is left of the text. */
  function ReadTokens(toks: seq<Token>, s: string, f: Fields, now: Today): Option<Progress> {
    if toks == [] then Some(Progress(f, s))
    else
      var r := ReadToken(toks[0], toks[1..], s, f, now);
      if r.None? then None else ReadTokens(toks[1..], r.value.rest, r.value.fields, now)
  }

  /** A civil time and, for TIMESTAMP, the offset of the zone in the text; without one it is in the session's zone. */
  datatype Stamp = Stamp(civil: Civil, offset: Option<int>)

  function Offset(z: Zone): int { (if z.west then -1 else 1) * (z.hours * 3600 + z.minutes * 60) }

  /** The whole text must have been read and the date must exist. */
  function Finish(p: Progress, t: Type): Option<Stamp> {
    var f := p.fields;
    var hour := f.hour + if f.hasMeridian && f.pm then 12 else 0;
    if p.rest != "" then None
    else if f.year < 1 || f.year > 9999 || f.month < 1 || f.month > 12 || f.day < 1 then None
    else if hour > 23 || f.minute > 59 || f.second > 59 || f.zone.hours > 14 then None
    else if t == TIME then Some(Stamp(Civil(1970, 1, 1, hour, f.minute, f.second, f.nano / 1000), None))
    else if f.day > DaysIn(f.year, f.month) then None
    else
      var c := Civil(f.year, f.month, f.day, hour, f.minute, f.second, f.nano / 1000);
      Some(Stamp(c, if t == TIMESTAMP && f.zone.given then Some(Offset(f.zone)) else None))
  }

  function Parse(s: string, format: string, t: Type, now: Today): Option<Stamp> {
    var toks := Tokens(format);
    if toks.None? || !ValidModel(toks.value, t) then None
    else
      var r := ReadTokens(toks.value, Trim(s), Missing(now), now);
      if r.None? then None else Finish(r.value, t)
  }

  lemma ReadStep(toks: seq<Token>, i: nat, s: string, f: Fields, now: Today)
    requires i < |toks|
    ensures var r := ReadToken(toks[i], toks[i + 1..], s, f, now);
      ReadTokens(toks[i..], s, f, now)
      == if r.None? then None else ReadTokens(toks[i + 1..], r.value.rest, r.value.fields, now)
  {
    assert toks[i..][1..] == toks[i + 1..];
  }

  method ReadAll(toks: seq<Token>, s: string, now: Today) returns (r: Option<Progress>)
    ensures r == ReadTokens(toks, s, Missing(now), now)
  {
    hide *;
    r := Some(Progress(Missing(now), s));
    var i: nat := 0;
    assert toks[0..] == toks;
    while i < |toks|
      invariant i <= |toks| && r.Some?
      invariant ReadTokens(toks, s, Missing(now), now) == ReadTokens(toks[i..], r.value.rest, r.value.fields, now)
    {
      ReadStep(toks, i, r.value.rest, r.value.fields, now);
      r := ReadToken(toks[i], toks[i + 1..], r.value.rest, r.value.fields, now);
      if r.None? { return; }
      i := i + 1;
    }
    ReadNothing(toks[i..], r.value.rest, r.value.fields, now);
  }

  lemma ReadNothing(toks: seq<Token>, s: string, f: Fields, now: Today)
    requires toks == []
    ensures ReadTokens(toks, s, f, now) == Some(Progress(f, s))
  {}

  method ParseStringWithFormat(s: string, format: string, t: Type, now: Today) returns (r: Option<Stamp>)
    ensures r == Parse(s, format, t, now)
  {
    var toks := TokenizeCastParseFormat(format);
    if toks.None? { return None; }
    var ok := ValidateCastParseModel(toks.value, t);
    if !ok { return None; }
    var p := ReadAll(toks.value, Trim(s), now);
    hide Tokens, ValidModel, ReadTokens, Finish;
    if p.None? { return None; }
    return Finish(p.value, t);
  }
}

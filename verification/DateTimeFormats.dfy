/** How a date and time format is divided, for printing and for parsing, said over its text. */
module DateTimeFormats {
  import opened Sequences
  import opened Decimals
  import opened Ascii
  import opened DateTimeElements
  import opened DateTimeMatching
  import opened DateTimePrinting
  import opened DateTimeParsing
  import opened DateTimeReading
  import opened DateTimeShown

  const MARKS: string := "-/,.;:"

  /** The element is the longest the text starts with, and this is how it is spelled. */
  ghost predicate Spelling(e: Element, raw: string, rest: string, parsing: bool) {
    && SameLetters(raw, Name(e)) && (parsing || !e.YCommaYYY?)
    && forall d: Element :: Starts(raw + rest, d, parsing) ==> |Name(d)| <= |raw|
  }

  /** Neither a quote nor a blank nor a mark, so that an element must follow. */
  predicate StartsElement(c: char, parsing: bool) { c != '"' && c != ' ' && c !in MARKS && !(parsing && c == '\'') }

  lemma MarksAre(c: char)
    ensures Punctuation(c) <==> c in MARKS
  {}

  lemma SpellingIff(format: string, e: Element, n: nat, parsing: bool)
    requires n <= |format|
    ensures FirstMatch(if parsing then PARSE_ELEMENTS else PRINT_ELEMENTS, format) == Some(e) && n == |Name(e)|
      <==> Spelling(e, format[..n], format[n..], parsing)
  {
    hide FirstMatch, PARSE_ELEMENTS, PRINT_ELEMENTS, Name;
    assert format[..n] + format[n..] == format;
    LongestMatch(format, e, parsing);
  }

  // ----- parsing -----

  /** The text between quotes stands for the other: a backslash for the character after it. */
  predicate Decodes(q: string, t: string)
    decreases |q|
  {
    if q == [] then t == []
    else if q[0] == '\\' then |q| > 1 && t != [] && t[0] == q[1] && Decodes(q[2..], t[1..])
    else q[0] != '"' && t != [] && t[0] == q[0] && Decodes(q[1..], t[1..])
  }

  ghost predicate Spells(tok: Token, text: string, rest: string) {
    match tok
    case Space(k) => |text| == k > 0 && (forall i :: 0 <= i < k ==> text[i] == ' ') && (rest == [] || rest[0] != ' ')
    case Literal(t) =>
      || (|text| == 1 && (text[0] in MARKS || text[0] == '\'') && t == text)
      || (|text| > 1 && text[0] == '"' && text[|text| - 1] == '"' && Decodes(text[1..|text| - 1], t))
    case Elem(e, raw) =>
      text != [] && raw == text && StartsElement(text[0], true) && !Unsupported(e) && Spelling(e, raw, rest, true)
  }

  lemma {:induction false} UnquotedDecodes(s: string)
    ensures Unquoted(s).Some? ==>
      var p := Unquoted(s).value; s[p.length - 1] == '"' && Decodes(s[..p.length - 1], p.text)
    decreases |s|
  {
    if s == "\\" {
      LoneSlash(s);
    } else if Unquoted(s).Some? && s[0] != '"' {
      var n := if s[0] == '\\' && 1 < |s| then 2 else 1;
      UnquotedDecodes(s[n..]);
      var r, p := Unquoted(s[n..]).value, Unquoted(s).value;
      var q := s[..p.length - 1];
      assert q[n..] == s[n..][..r.length - 1] && p.text[1..] == r.text;
      assert s[n..][r.length - 1] == s[p.length - 1];
    }
  }

  /** A backslash at the very end closes no quote. */
  lemma LoneSlash(s: string)
    requires s == "\\"
    ensures Unquoted(s) == None
  {
    assert Unquoted(s[1..]) == None;
  }

  lemma {:induction false} DecodesUnquoted(q: string, t: string, rest: string)
    requires Decodes(q, t)
    ensures Unquoted(q + ['"'] + rest) == Some(Piece(t, |q| + 1))
    decreases |q|
  {
    var s := q + ['"'] + rest;
    if q == [] {
      assert s[0] == '"';
    } else {
      var n := if q[0] == '\\' then 2 else 1;
      DecodesUnquoted(q[n..], t[1..], rest);
      assert s[n..] == q[n..] + ['"'] + rest && s[0] == q[0] && s[n - 1] == q[n - 1];
      assert [t[0]] + t[1..] == t;
    }
  }

  lemma Slices(s: string, n: nat)
    requires 2 <= n <= |s|
    ensures s[..n][1..n - 1] == s[1..][..n - 2] && s[..n][n - 1] == s[1..][n - 2]
    ensures s[1..] == s[..n][1..n - 1] + [s[n - 1]] + s[n..]
  {}

  lemma QuotedTokenIff(format: string, tok: Token, n: nat)
    requires format != [] && format[0] == '"' && n <= |format|
    ensures FirstToken(format) == Some(Scanned(tok, n)) <==> n > 0 && Spells(tok, format[..n], format[n..])
  {
    UnquotedDecodes(format[1..]);
    var r := Unquoted(format[1..]);
    assert FirstToken(format) == if r.None? then None else Some(Scanned(Literal(r.value.text), 1 + r.value.length));
    hide FirstToken, Unquoted, Spelling, FirstMatch, PARSE_ELEMENTS, Decodes;
    if n >= 2 {
      Slices(format, n);
      if tok.Literal? && format[n - 1] == '"' && Decodes(format[..n][1..n - 1], tok.text) {
        DecodesUnquoted(format[..n][1..n - 1], tok.text, format[n..]);
      }
    }
  }

  lemma {:induction false} BlanksAre(s: string, k: nat)
    requires k <= |s| && (forall i :: 0 <= i < k ==> s[i] == ' ') && (k < |s| ==> s[k] != ' ')
    ensures Blanks(s) == k
    decreases k
  {
    if k > 0 { BlanksAre(s[1..], k - 1); }
  }

  lemma BlankTokenIff(format: string, tok: Token, n: nat)
    requires format != [] && format[0] == ' ' && n <= |format|
    ensures FirstToken(format) == Some(Scanned(tok, n)) <==> n > 0 && Spells(tok, format[..n], format[n..])
  {
    var text := format[..n];
    if n > 0 { assert text[0] == ' '; }
    if tok.Space? && n > 0 && Spells(tok, text, format[n..]) {
      assert forall i :: 0 <= i < n ==> format[i] == text[i];
      assert n < |format| ==> format[n] == format[n..][0];
      BlanksAre(format, n);
    }
    hide Spelling, FirstMatch, PARSE_ELEMENTS, Blanks;
  }

  lemma MarkTokenIff(format: string, tok: Token, n: nat)
    requires format != [] && (format[0] in MARKS || format[0] == '\'') && n <= |format|
    ensures FirstToken(format) == Some(Scanned(tok, n)) <==> n > 0 && Spells(tok, format[..n], format[n..])
  {
    MarksAre(format[0]);
    var text := format[..n];
    if n > 0 { assert text[0] == format[0]; }
    if n == 1 { assert text == [format[0]]; }
    hide Spelling, FirstMatch, PARSE_ELEMENTS, MARKS;
  }

  lemma ElementTokenIff(format: string, tok: Token, n: nat)
    requires format != [] && StartsElement(format[0], true) && n <= |format|
    ensures FirstToken(format) == Some(Scanned(tok, n)) <==> n > 0 && Spells(tok, format[..n], format[n..])
  {
    MarksAre(format[0]);
    var text := format[..n];
    if n > 0 { assert text[0] == format[0]; }
    if tok.Elem? { SpellingIff(format, tok.e, n, true); }
    hide Spelling, FirstMatch, PARSE_ELEMENTS, MARKS, Name;
  }

  /** The first token is exactly the one the format spells. */
  lemma FirstTokenIff(format: string, tok: Token, n: nat)
    requires format != [] && n <= |format|
    ensures FirstToken(format) == Some(Scanned(tok, n)) <==> n > 0 && Spells(tok, format[..n], format[n..])
  {
    hide FirstToken, Spells, MARKS;
    if format[0] == '"' {
      QuotedTokenIff(format, tok, n);
    } else if format[0] == ' ' {
      BlankTokenIff(format, tok, n);
    } else if format[0] in MARKS || format[0] == '\'' {
      MarkTokenIff(format, tok, n);
    } else {
      ElementTokenIff(format, tok, n);
    }
  }

  // ----- printing -----

  /** What the first part of a format prints. */
  ghost predicate Prints(text: string, rest: string, m: Moment, t: Type, s: string)
    requires ValidMoment(m)
  {
    || (|text| == 1 && (text[0] == ' ' || text[0] in MARKS) && s == text)
    || (|text| > 1 && text[0] == '"' && text == ['"'] + s + ['"'] && '"' !in s)
    || (text != [] && StartsElement(text[0], false) &&
        exists e: Element :: Spelling(e, text, rest, false) && Supports(t, e) && Shows(e, text, m, s))
  }

  lemma QuotedPrints(format: string, m: Moment, t: Type)
    requires ValidMoment(m) && format != [] && format[0] == '"' && FirstPiece(format, m, t).Some?
    ensures var p := FirstPiece(format, m, t).value; Prints(format[..p.length], format[p.length..], m, t, p.text)
  {
    var end := IndexOf(format[1..], '"').value;
    var s := format[1..1 + end];
    assert format[1..][..end] == s && format[..end + 2] == ['"'] + s + ['"'];
  }

  lemma ElementPrints(format: string, m: Moment, t: Type)
    requires ValidMoment(m) && format != [] && StartsElement(format[0], false) && FirstPiece(format, m, t).Some?
    ensures var p := FirstPiece(format, m, t).value; Prints(format[..p.length], format[p.length..], m, t, p.text)
  {
    MarksAre(format[0]);
    var e := FirstMatch(PRINT_ELEMENTS, format).value;
    var n := |Name(e)|;
    var p := FirstPiece(format, m, t).value;
    assert p == Piece(Render(e, format[..n], m), n) && Supports(t, e);
    SpellingIff(format, e, n, false);
    hide FirstPiece, FirstMatch, PRINT_ELEMENTS, Name, Render, Shows, Supports, MARKS;
    ShowsElement(e, format[..n], m);
    assert Spelling(e, format[..n], format[n..], false);
  }

  /** A part of a format prints a blank or mark as it is, quoted text up to the next quote, or what an element shows. */
  lemma FirstPieceIs(format: string, m: Moment, t: Type)
    requires ValidMoment(m) && format != [] && FirstPiece(format, m, t).Some?
    ensures var p := FirstPiece(format, m, t).value; Prints(format[..p.length], format[p.length..], m, t, p.text)
  {
    MarksAre(format[0]);
    if format[0] == '"' {
      QuotedPrints(format, m, t);
    } else if format[0] == ' ' || format[0] in MARKS {
      assert format[..1] == [format[0]];
    } else {
      ElementPrints(format, m, t);
    }
    hide FirstPiece, MARKS;
  }

  /** Some element of the type stands at the start of the format. */
  ghost predicate ElementFor(format: string, t: Type, e: Element, n: nat) {
    n <= |format| && Spelling(e, format[..n], format[n..], false) && Supports(t, e)
  }

  lemma NoElementIff(format: string, t: Type)
    ensures var found := FirstMatch(PRINT_ELEMENTS, format);
      found.Some? && Supports(t, found.value) <==> exists e: Element, n: nat :: ElementFor(format, t, e, n)
  {
    var found := FirstMatch(PRINT_ELEMENTS, format);
    if found.Some? {
      var n := |Name(found.value)|;
      assert n <= |format|;
      SpellingIff(format, found.value, n, false);
      if Supports(t, found.value) { assert ElementFor(format, t, found.value, n); }
    }
    hide FirstMatch, PRINT_ELEMENTS, Name, Supports, Spelling;
    forall e: Element, n: nat | ElementFor(format, t, e, n) ensures found == Some(e) {
      SpellingIff(format, e, n, false);
    }
  }

  /** A format is refused exactly at quoted text that does not end, or where no element of the type stands. */
  lemma RefusedIff(format: string, m: Moment, t: Type)
    requires ValidMoment(m) && format != []
    ensures FirstPiece(format, m, t) == None <==>
      (format[0] == '"' && '"' !in format[1..])
      || (StartsElement(format[0], false) && !exists e: Element, n: nat :: ElementFor(format, t, e, n))
  {
    MarksAre(format[0]);
    NoElementIff(format, t);
    if IndexOf(format[1..], '"').Some? { assert format[1..][IndexOf(format[1..], '"').value] == '"'; }
    hide FirstMatch, PRINT_ELEMENTS, Name, Render, Supports, MARKS, ElementFor, IndexOf;
  }

  // ----- the types -----

  /** Parsing accepts an element for a type exactly when printing does. */
  lemma TypesAgree(t: Type, e: Element)
    requires !Unsupported(e)
    ensures PartAllowed(t, PartOf(e)) <==> Supports(t, e)
  {}

  /** An element is allowed for a type that has what it shows: a date, a time of day or a zone. */
  lemma SupportsIff(t: Type, e: Element)
    ensures Supports(t, e) <==>
      match e
      case TZH | TZM => t == TIMESTAMP
      case HH | HH12 | HH24 | MI | SS | SSSSS | AM | PM | ADotM | PDotM | FF(_) => t != DATE
      case _ => t != TIME
  {}

  // ----- the rules for hours -----

  function Tokenized(es: seq<Element>, raw: string): seq<Token> {
    seq(|es|, i requires 0 <= i < |es| => Elem(es[i], raw))
  }

  predicate Halved(es: seq<Element>) { ADotM in es || PDotM in es }

  /**
   The rules, on a list of elements: each part once and of the type; HH and HH12 come with a meridian indicator, which
   does not go with HH24; SSSSS comes without any of them; and TZM comes with TZH.
   */
  lemma ModelRules(es: seq<Element>, raw: string, t: Type)
    ensures ValidModel(Tokenized(es, raw), t) <==>
      && (forall i, j :: 0 <= i < j < |es| ==> PartOf(es[i]) != PartOf(es[j]))
      && (forall i :: 0 <= i < |es| ==> PartAllowed(t, PartOf(es[i])))
      && (HH in es || HH12 in es <==> Halved(es)) && !(HH24 in es && Halved(es))
      && !(SSSSS in es && (HH in es || HH12 in es || HH24 in es || MI in es || SS in es || Halved(es)))
      && (TZM in es ==> TZH in es)
  {
    var toks := Tokenized(es, raw);
    assert forall i :: 0 <= i < |es| ==> toks[i].Elem? && toks[i].e == es[i];
    assert DistinctParts(toks) <==> forall i, j :: 0 <= i < j < |es| ==> PartOf(es[i]) != PartOf(es[j]);
    assert AllAllowed(toks, t) <==> forall i :: 0 <= i < |es| ==> PartAllowed(t, PartOf(es[i]));
    HourRules(es, raw);
    hide HasPart, HasElement, PartOf, PartAllowed, DistinctParts, AllAllowed, HoursAgree, ZonesAgree, Tokenized;
  }

  lemma HourRules(es: seq<Element>, raw: string)
    ensures HoursAgree(Tokenized(es, raw)) <==>
      && (HH in es || HH12 in es <==> Halved(es)) && !(HH24 in es && Halved(es))
      && !(SSSSS in es && (HH in es || HH12 in es || HH24 in es || MI in es || SS in es || Halved(es)))
    ensures ZonesAgree(Tokenized(es, raw)) <==> (TZM in es ==> TZH in es)
  {
    PartIn(es, raw, DayHalf);
    PartIn(es, raw, Hour);
    PartIn(es, raw, Minute);
    PartIn(es, raw, Second);
    PartIn(es, raw, DaySecond);
    PartIn(es, raw, ZoneHour);
    PartIn(es, raw, ZoneMinute);
    PartElements(es);
    ElementIn(es, raw, HH);
    ElementIn(es, raw, HH12);
    ElementIn(es, raw, HH24);
    hide HasPart, HasElement, PartAmong, Tokenized;
  }

  predicate PartAmong(es: seq<Element>, p: Part) { exists i :: 0 <= i < |es| && PartOf(es[i]) == p }

  lemma PartIn(es: seq<Element>, raw: string, p: Part)
    ensures HasPart(Tokenized(es, raw), p) <==> PartAmong(es, p)
  {
    hide PartOf;
    var toks := Tokenized(es, raw);
    if i :| 0 <= i < |es| && PartOf(es[i]) == p { assert SetsPart(toks[i], p); }
  }

  lemma ElementIn(es: seq<Element>, raw: string, e: Element)
    ensures HasElement(Tokenized(es, raw), e) <==> e in es
  {
    var toks := Tokenized(es, raw);
    if i :| 0 <= i < |es| && es[i] == e { assert toks[i].e == e; }
  }

  /** The elements of each part. */
  lemma HourElements(es: seq<Element>)
    ensures PartAmong(es, DayHalf) <==> ADotM in es || PDotM in es
    ensures PartAmong(es, Hour) <==> HH in es || HH12 in es || HH24 in es
  {}

  lemma TimeElements(es: seq<Element>)
    ensures PartAmong(es, Minute) <==> MI in es
    ensures PartAmong(es, Second) <==> SS in es
    ensures PartAmong(es, DaySecond) <==> SSSSS in es
  {}

  lemma ZoneElements(es: seq<Element>)
    ensures PartAmong(es, ZoneHour) <==> TZH in es
    ensures PartAmong(es, ZoneMinute) <==> TZM in es
  {}

  lemma PartElements(es: seq<Element>)
    ensures PartAmong(es, DayHalf) <==> ADotM in es || PDotM in es
    ensures PartAmong(es, Hour) <==> HH in es || HH12 in es || HH24 in es
    ensures PartAmong(es, Minute) <==> MI in es
    ensures PartAmong(es, Second) <==> SS in es
    ensures PartAmong(es, DaySecond) <==> SSSSS in es
    ensures PartAmong(es, ZoneHour) <==> TZH in es
    ensures PartAmong(es, ZoneMinute) <==> TZM in es
  {
    hide *;
    HourElements(es);
    TimeElements(es);
    ZoneElements(es);
  }
}

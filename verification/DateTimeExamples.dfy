/** Formats at which the round trip of dates and times holds, and at which it fails. */
module DateTimeExamples {
  import opened Sequences
  import opened Decimals
  import opened Ascii
  import opened DateTimeElements
  import opened DateTimeMatching
  import opened DateTimePrinting
  import opened DateTimeParsing
  import opened DateTimeReading
  import opened DateTimeRoundTrip

  /** Of the elements tried before or with one of these, only that one has its first letters. */
  predicate Distinctive(e: Element, rest: string) {
    e == YYYY || e == MM || e == SSSSS || e == FF(6) || e == TZH || (e == DD && rest != [] && LowerChar(rest[0]) != 'd')
  }

  lemma OnlyOne(e: Element, rest: string, d: Element)
    requires Distinctive(e, rest) && Group(d) <= Group(e) && StartsWith(Name(e) + rest, Name(d))
    ensures d == e
  {
    var s, w := Name(e) + rest, Name(d);
    FirstLetters(e, rest);
    hide Name, Group, StartsWith, Distinctive;
    StartsAt(s, w, 0);
    if |w| > 1 { StartsAt(s, w, 1); }
    if |w| > 2 { StartsAt(s, w, 2); }
    OnlyLetters(e, rest, d);
  }

  lemma OnlyLetters(e: Element, rest: string, d: Element)
    requires Distinctive(e, rest) && Group(d) <= Group(e) && LetterAt(d, 0) == LetterAt(e, 0)
    requires |Name(d)| > 1 ==> LetterAt(d, 1) == LetterAt(e, 1)
    requires |Name(d)| > 2 && |Name(e)| > 2 ==> LetterAt(d, 2) == LetterAt(e, 2)
    requires |Name(d)| > 2 && |Name(e)| <= 2 ==> rest != [] && LetterAt(d, 2) == LowerChar(rest[0])
    ensures d == e
  {
    hide Group, LetterAt;
    if e == MM || e == DD {
      assert |Name(e)| == 2;
      hide Name;
      OnlyShort(e, rest, d);
    } else {
      assert |Name(e)| > 2;
      hide Name;
      OnlyLong(e, d);
    }
  }

  lemma FirstLetters(e: Element, rest: string)
    requires Distinctive(e, rest)
    ensures var s := Name(e) + rest;
      && |Name(e)| > 1 && LowerChar(s[0]) == LetterAt(e, 0) && LowerChar(s[1]) == LetterAt(e, 1)
      && (|s| > 2 ==> LowerChar(s[2]) == if |Name(e)| > 2 then LetterAt(e, 2) else LowerChar(rest[0]))
  {
    hide Name;
    assert |Name(e)| > 1 by { LongName(e, rest); }
  }

  lemma LongName(e: Element, rest: string)
    requires Distinctive(e, rest)
    ensures |Name(e)| > 1
  {}

  lemma OnlyLong(e: Element, d: Element)
    requires e == YYYY || e == SSSSS || e == FF(6) || e == TZH
    requires Group(d) <= Group(e) && LetterAt(d, 0) == LetterAt(e, 0)
    requires |Name(d)| > 1 ==> LetterAt(d, 1) == LetterAt(e, 1)
    requires |Name(d)| > 2 ==> LetterAt(d, 2) == LetterAt(e, 2)
    ensures d == e
  {}

  lemma OnlyShort(e: Element, rest: string, d: Element)
    requires e == MM || (e == DD && rest != [] && LowerChar(rest[0]) != 'd')
    requires Group(d) <= Group(e) && LetterAt(d, 0) == LetterAt(e, 0)
    requires |Name(d)| > 1 ==> LetterAt(d, 1) == LetterAt(e, 1)
    requires |Name(d)| > 2 ==> rest != [] && LetterAt(d, 2) == LowerChar(rest[0])
    ensures d == e
  {}

  lemma FoundOwn(e: Element, rest: string)
    requires Distinctive(e, rest)
    ensures FirstMatch(PARSE_ELEMENTS, Name(e) + rest) == Some(e) && 'A' <= Name(e)[0] <= 'Z' && !Unsupported(e)
  {
    Listed(e, rest);
    hide *;
    AllTried();
    StartsWithOwn(Name(e), rest);
    var d := FoundBy(0, Name(e) + rest, e);
    OnlyOne(e, rest, d);
  }

  lemma StartsWithOwn(word: string, rest: string)
    ensures StartsWith(word + rest, word)
  {
    assert (word + rest)[..|word|] == word;
  }

  lemma Listed(e: Element, rest: string)
    requires Distinctive(e, rest)
    ensures e in TriedFrom(0) && 'A' <= Name(e)[0] <= 'Z' && !Unsupported(e)
  {
    hide Tried, TriedFrom;
    AllListed(e);
  }

  // ----- the first token -----

  lemma TokensCons(first: string, rest: string, tok: Token, toks: seq<Token>)
    requires first != [] && FirstToken(first + rest) == Some(Scanned(tok, |first|)) && Tokens(rest) == Some(toks)
    ensures Tokens(first + rest) == Some([tok] + toks)
  {
    assert (first + rest)[|first|..] == rest;
    hide FirstToken;
  }

  /** One more element in front. */
  lemma InFront(e: Element, name: string, rest: string, whole: string, toks: seq<Token>)
    requires name == Name(e) && whole == name + rest && Distinctive(e, rest) && Tokens(rest) == Some(toks)
    ensures Tokens(whole) == Some([Elem(e, name)] + toks)
  {
    FoundOwn(e, rest);
    assert whole[..|name|] == name && whole[0] == name[0];
    hide Name, FirstMatch, PARSE_ELEMENTS, Unsupported, Tokens;
    TokensCons(name, rest, Elem(e, name), toks);
  }

  /** Quoted text with a single character, written as it is or escaped. */
  lemma UnquotedOne(text: string, c: char, rest: string)
    requires (text == [c] && c != '"' && c != '\\') || text == ['\\', c]
    ensures Unquoted(text + (['"'] + rest)) == Some(Piece([c], |text| + 1))
  {
    var u, v := text + (['"'] + rest), ['"'] + rest;
    assert u[|text|..] == v && u[0] == text[0] && u[|text| - 1] == c;
    assert Unquoted(v) == Some(Piece("", 1)) && [c] + "" == [c];
  }

  lemma QuotedToken(text: string, c: char, rest: string, format: string)
    requires (text == [c] && c != '"' && c != '\\') || text == ['\\', c]
    requires format == ['"'] + (text + (['"'] + rest))
    ensures FirstToken(format) == Some(Scanned(Literal([c]), |text| + 2))
  {
    UnquotedOne(text, c, rest);
    hide Unquoted;
    assert format[1..] == text + (['"'] + rest);
  }

  /** One quoted character in front. */
  lemma QuotedInFront(c: char, rest: string, toks: seq<Token>)
    requires c != '"' && c != '\\' && Tokens(rest) == Some(toks)
    ensures Tokens(['"', c, '"'] + rest) == Some([Literal([c])] + toks)
  {
    hide *;
    var first := ['"', c, '"'];
    assert first + rest == ['"'] + ([c] + (['"'] + rest));
    QuotedToken([c], c, rest, first + rest);
    TokensCons(first, rest, Literal([c]), toks);
  }

  // ----- the tokens of the formats -----

  const YEAR: Token := Elem(YYYY, "YYYY")

  /** MMDDSSSSSFF6, whose numbers have no delimiters at all. */
  const DAY_TIME: seq<Token> := [Elem(MM, "MM"), Elem(DD, "DD"), Elem(SSSSS, "SSSSS"), Elem(FF(6), "FF6")]

  const COMPACT: seq<Token> := [YEAR] + DAY_TIME

  lemma Names()
    ensures Name(YYYY) == "YYYY" && Name(MM) == "MM" && Name(DD) == "DD"
    ensures Name(SSSSS) == "SSSSS" && Name(FF(6)) == "FF6"
    ensures forall rest :: Distinctive(YYYY, rest) && Distinctive(MM, rest) && Distinctive(SSSSS, rest)
    ensures forall rest :: Distinctive(FF(6), rest) && Distinctive(DD, "SSSSS" + rest)
  {}

  lemma DayTimeText(after: string)
    ensures "MMDDSSSSSFF6" + after == "MM" + ("DD" + ("SSSSS" + ("FF6" + after)))
  {}

  lemma DayTimeList(toks: seq<Token>)
    ensures [Elem(MM, "MM")] + ([Elem(DD, "DD")] + ([Elem(SSSSS, "SSSSS")] + ([Elem(FF(6), "FF6")] + toks)))
      == DAY_TIME + toks
  {}

  lemma DayTimeTokens(after: string, toks: seq<Token>)
    requires Tokens(after) == Some(toks)
    ensures Tokens("MMDDSSSSSFF6" + after) == Some(DAY_TIME + toks)
  {
    hide *;
    Names();
    DayTimeText(after);
    DayTimeList(toks);
    var f := "FF6" + after;
    var s := "SSSSS" + f;
    var d := "DD" + s;
    var t0 := [Elem(FF(6), "FF6")] + toks;
    var t1 := [Elem(SSSSS, "SSSSS")] + t0;
    InFront(FF(6), "FF6", after, f, toks);
    InFront(SSSSS, "SSSSS", f, s, t0);
    InFront(DD, "DD", s, d, t1);
    InFront(MM, "MM", d, "MM" + d, [Elem(DD, "DD")] + t1);
  }

  lemma YearInFront(rest: string, toks: seq<Token>)
    requires Tokens(rest) == Some(toks)
    ensures Tokens("YYYY" + rest) == Some([YEAR] + toks)
  {
    hide Tokens;
    InFront(YYYY, "YYYY", rest, "YYYY" + rest, toks);
  }

  lemma CompactTokens()
    ensures Tokens("YYYYMMDDSSSSSFF6") == Some(COMPACT)
  {
    assert Tokens("") == Some([]) && "MMDDSSSSSFF6" + "" == "MMDDSSSSSFF6" && DAY_TIME + [] == DAY_TIME;
    assert "YYYY" + "MMDDSSSSSFF6" == "YYYYMMDDSSSSSFF6";
    hide *;
    DayTimeTokens("", []);
    YearInFront("MMDDSSSSSFF6", DAY_TIME);
  }

  // ----- the rules for them -----

  /** The tokens set exactly these parts, each once, and no hour by itself. */
  ghost predicate Sets(toks: seq<Token>, parts: set<Part>, t: Type) {
    && DistinctParts(toks) && AllAllowed(toks, t) && (forall p :: HasPart(toks, p) <==> p in parts)
  }

  lemma SetsText(toks: seq<Token>, t: Type)
    requires forall i :: 0 <= i < |toks| ==> !toks[i].Elem?
    ensures Sets(toks, {}, t)
  {}

  lemma SetsOne(e: Element, raw: string, t: Type)
    requires PartAllowed(t, PartOf(e))
    ensures Sets([Elem(e, raw)], {PartOf(e)}, t)
  {
    var toks := [Elem(e, raw)];
    hide PartOf, PartAllowed;
    assert SetsPart(toks[0], PartOf(e));
  }

  lemma SetsJoin(a: seq<Token>, b: seq<Token>, p: set<Part>, q: set<Part>, t: Type)
    requires Sets(a, p, t) && Sets(b, q, t) && p !! q
    ensures Sets(a + b, p + q, t)
  {
    hide PartOf, PartAllowed;
    var c := a + b;
    assert forall i :: 0 <= i < |c| ==> c[i] == if i < |a| then a[i] else b[i - |a|];
    forall r: Part ensures HasPart(c, r) <==> r in p + q {
      if i :| 0 <= i < |a| && SetsPart(a[i], r) { assert SetsPart(c[i], r); }
      if i :| 0 <= i < |b| && SetsPart(b[i], r) { assert SetsPart(c[|a| + i], r); }
    }
    forall i, j | 0 <= i < j < |c| && c[i].Elem? && c[j].Elem? ensures PartOf(c[i].e) != PartOf(c[j].e) {
      if i < |a| <= j {
        assert SetsPart(a[i], PartOf(c[i].e)) && SetsPart(b[j - |a|], PartOf(c[j].e));
        assert HasPart(a, PartOf(c[i].e)) && HasPart(b, PartOf(c[j].e));
      }
    }
  }

  const ALL: set<Part> := {Year, Month, Day, DaySecond, Fraction}

  lemma SetsModel(toks: seq<Token>, parts: set<Part>, t: Type)
    requires Sets(toks, parts, t) && ALL <= parts <= ALL + {ZoneHour}
    ensures ValidModel(toks, t) && KindOf(toks, t) == Kind(t != TIME, t != DATE, false, ZoneHour in parts, false)
    ensures HasPart(toks, Month) && HasPart(toks, Day) && HasPart(toks, DaySecond)
  {
    SetsHours(toks, parts, t);
    SetsNeither(toks, parts, t);
    hide HasPart, DistinctParts, AllAllowed, HoursAgree, ALL;
  }

  lemma SetsNeither(toks: seq<Token>, parts: set<Part>, t: Type)
    requires Sets(toks, parts, t) && ALL <= parts <= ALL + {ZoneHour}
    ensures HasPart(toks, Month) && HasPart(toks, Day) && HasPart(toks, DaySecond)
    ensures !HasPart(toks, DayHalf) && !HasPart(toks, ZoneMinute)
  {
    hide HasPart, DistinctParts, AllAllowed;
  }

  lemma SetsHours(toks: seq<Token>, parts: set<Part>, t: Type)
    requires Sets(toks, parts, t) && Hour !in parts && Minute !in parts && Second !in parts && DayHalf !in parts
    ensures HoursAgree(toks)
  {
    forall i | 0 <= i < |toks| && toks[i].Elem? ensures PartOf(toks[i].e) != Hour {
      assert SetsPart(toks[i], PartOf(toks[i].e));
      assert HasPart(toks, PartOf(toks[i].e));
    }
    hide HasPart, DistinctParts, AllAllowed;
  }

  const REST: set<Part> := {Month, Day, DaySecond, Fraction}

  lemma DayTimeParts()
    ensures DAY_TIME == ([Elem(MM, "MM")] + [Elem(DD, "DD")]) + ([Elem(SSSSS, "SSSSS")] + [Elem(FF(6), "FF6")])
    ensures ({Month} + {Day}) + ({DaySecond} + {Fraction}) == REST
    ensures {} + {Year} + ({} + (REST + {})) == ALL && {Year} + (REST + {ZoneHour}) == ALL + {ZoneHour}
  {}

  lemma SetsDayTime(t: Type)
    requires t == DATETIME || t == TIMESTAMP
    ensures Sets(DAY_TIME, REST, t)
  {
    hide Sets, DAY_TIME, REST;
    DayTimeParts();
    SetsOne(MM, "MM", t);
    SetsOne(DD, "DD", t);
    SetsOne(SSSSS, "SSSSS", t);
    SetsOne(FF(6), "FF6", t);
    SetsJoin([Elem(MM, "MM")], [Elem(DD, "DD")], {Month}, {Day}, t);
    SetsJoin([Elem(SSSSS, "SSSSS")], [Elem(FF(6), "FF6")], {DaySecond}, {Fraction}, t);
    SetsJoin([Elem(MM, "MM")] + [Elem(DD, "DD")], [Elem(SSSSS, "SSSSS")] + [Elem(FF(6), "FF6")], {Month} + {Day},
      {DaySecond} + {Fraction}, t);
  }

  /** Text before, after and between the year and the rest. */
  function Shape(pre: seq<Token>, mid: seq<Token>, post: seq<Token>): seq<Token> {
    (pre + [YEAR]) + (mid + (DAY_TIME + post))
  }

  predicate TextOnly(toks: seq<Token>) { forall i :: 0 <= i < |toks| ==> !toks[i].Elem? }

  lemma ShapeFits(pre: seq<Token>, mid: seq<Token>, post: seq<Token>)
    requires TextOnly(pre) && TextOnly(mid) && TextOnly(post)
    ensures ValidModel(Shape(pre, mid, post), DATETIME) && Fixes(Shape(pre, mid, post), DATETIME)
    ensures !KindOf(Shape(pre, mid, post), DATETIME).zoned
  {
    ShapeFixes(pre, mid, post);
    assert Shape(pre, mid, post) == (pre + [YEAR]) + (mid + (DAY_TIME + post));
    SetsOne(YYYY, "YYYY", DATETIME);
    hide Sets, DAY_TIME, REST, Shape, ValidModel, KindOf;
    SetsText(pre, DATETIME);
    SetsText(mid, DATETIME);
    SetsText(post, DATETIME);
    SetsDayTime(DATETIME);
    DayTimeParts();
    YearApart();
    SetsJoin(pre, [YEAR], {}, {Year}, DATETIME);
    SetsJoin(DAY_TIME, post, REST, {}, DATETIME);
    SetsJoin(mid, DAY_TIME + post, {}, REST + {}, DATETIME);
    SetsJoin(pre + [YEAR], mid + (DAY_TIME + post), {} + {Year}, {} + (REST + {}), DATETIME);
    SetsModel(Shape(pre, mid, post), ALL, DATETIME);
  }

  lemma YearApart()
    ensures REST !! {} && {} !! REST + {} && {} + {Year} !! {} + (REST + {})
    ensures REST !! {ZoneHour} && {Year} !! REST + {ZoneHour}
  {}

  lemma ShapeFixes(pre: seq<Token>, mid: seq<Token>, post: seq<Token>)
    ensures HasYear(Shape(pre, mid, post)) && HasMicros(Shape(pre, mid, post))
  {
    var all := Shape(pre, mid, post);
    assert all[|pre|] == YEAR && all[|pre| + 1 + |mid| + 3] == DAY_TIME[3];
    assert FourDigitYear(all[|pre|]) && Micros(all[|pre| + 1 + |mid| + 3]);
  }

  // ----- whether they are ambiguous -----

  lemma DayTimeTidy(post: seq<Token>)
    requires post == [] || (|post| == 1 && post[0].Literal?)
    ensures Tidy(DAY_TIME + post) && StartClass(DAY_TIME + post) == Numeral && Numeric((DAY_TIME + post)[0])
  {
    var d := DAY_TIME + post;
    assert Tidy(post) by { if post != [] { assert post[1..] == []; } }
    assert d[4..] == post && d[3..][1..] == d[4..] && d[2..][1..] == d[3..] && d[1..][1..] == d[2..];
    assert TidyHead(d[3..]) && TidyHead(d[2..]) && TidyHead(d[1..]) && TidyHead(d);
    TidyCons(d[3..]);
    TidyCons(d[2..]);
    TidyCons(d[1..]);
    TidyCons(d);
    hide Tidy;
  }

  // ----- the examples -----

  /** Every value printed with the format is read back. */
  ghost predicate Returns(format: string) {
    forall m: Moment, now: Today :: ValidMoment(m) ==> ReadsBackAt(format, m, DATETIME, now)
  }

  /** No value printed with the format is read back. */
  ghost predicate Loses(format: string) {
    forall m: Moment, now: Today :: ValidMoment(m) ==> !ReadsBackAt(format, m, DATETIME, now)
  }

  lemma {:induction false} NoApostropheIn(format: string)
    requires '\'' !in format
    ensures NoApostrophe(format)
    decreases |format|
  {
    if format != [] && FirstToken(format).Some? { NoApostropheIn(format[FirstToken(format).value.length..]); }
  }

  lemma ShapeReturns(format: string, pre: seq<Token>, mid: seq<Token>, post: seq<Token>)
    requires TextOnly(pre) && TextOnly(mid) && TextOnly(post) && Tokens(format) == Some(Shape(pre, mid, post))
    ensures '\\' !in format && NoApostrophe(format) && Unambiguous(Shape(pre, mid, post)) ==> Returns(format)
    ensures !('\\' !in format && NoApostrophe(format) && Unambiguous(Shape(pre, mid, post))) ==> Loses(format)
  {
    var toks := Shape(pre, mid, post);
    ShapeFits(pre, mid, post);
    hide *;
    forall m: Moment, now: Today | ValidMoment(m)
      ensures ReadsBackAt(format, m, DATETIME, now) <==> '\\' !in format && NoApostrophe(format) && Unambiguous(toks)
    {
      RoundTrip(format, toks, m, DATETIME, now);
      NoOffset(m, KindOf(toks, DATETIME));
    }
    ReturnsIff(format, '\\' !in format && NoApostrophe(format) && Unambiguous(toks));
  }

  lemma NoOffset(m: Moment, k: Kind)
    requires !k.zoned
    ensures OffsetShown(m, k)
  {}

  lemma ReturnsIff(format: string, good: bool)
    requires forall m: Moment, now: Today :: ValidMoment(m) ==> (ReadsBackAt(format, m, DATETIME, now) <==> good)
    ensures good ==> Returns(format)
    ensures !good ==> Loses(format)
  {
    hide ReadsBackAt, ValidMoment;
  }

  lemma CompactShape()
    ensures Shape([], [], []) == COMPACT
  {}

  lemma CompactUnambiguous()
    ensures Unambiguous(COMPACT)
  {
    DayTimeTidy([]);
    assert DAY_TIME + [] == DAY_TIME && COMPACT[1..] == DAY_TIME && COMPACT[4] == DAY_TIME[3];
    TidyCons(COMPACT);
    hide Tidy;
  }

  lemma CompactExample()
    ensures Returns("YYYYMMDDSSSSSFF6")
  {
    Plain("YYYYMMDDSSSSSFF6");
    hide *;
    CompactUnambiguous();
    CompactTokens();
    CompactShape();
    ShapeReturns("YYYYMMDDSSSSSFF6", [], [], []);
  }

  lemma Plain(format: string)
    requires '\'' !in format && '\\' !in format
    ensures NoApostrophe(format) && '\\' !in format
  {
    NoApostropheIn(format);
  }

  /** One token in front of the compact format. */
  lemma InFrontOfCompact(first: string, format: string, tok: Token)
    requires first != [] && format == first + "YYYYMMDDSSSSSFF6" && FirstToken(format) == Some(Scanned(tok, |first|))
    ensures Tokens(format) == Some(Shape([tok], [], [])) && Shape([tok], [], [])[0] == tok
  {
    assert [tok] + COMPACT == Shape([tok], [], []);
    hide *;
    CompactTokens();
    TokensCons(first, "YYYYMMDDSSSSSFF6", tok, COMPACT);
  }

  /** A leading blank is printed, and trimmed off before the format asks for it. */
  lemma LeadingBlankExample()
    ensures Loses(" YYYYMMDDSSSSSFF6")
  {
    var format := " YYYYMMDDSSSSSFF6";
    assert format == " " + "YYYYMMDDSSSSSFF6" && format[1] != ' ' && Blanks(format[1..]) == 0;
    InFrontOfCompact(" ", format, Space(1));
    assert StartClass(Shape([Space(1)], [], [])) == Blank;
    hide *;
    NotUnambiguous(Shape([Space(1)], [], []));
    ShapeReturns(format, [Space(1)], [], []);
  }

  lemma NotUnambiguous(toks: seq<Token>)
    requires StartClass(toks) == Blank
    ensures !Unambiguous(toks)
  {
    hide Tidy, EndsBlank, StartClass;
  }

  /** An escaped backslash is printed as two and asked for as one. */
  lemma BackslashExample()
    ensures Loses("\"\\\\\"YYYYMMDDSSSSSFF6")
  {
    var format := "\"\\\\\"YYYYMMDDSSSSSFF6";
    var rest := "YYYYMMDDSSSSSFF6";
    assert format[1] == '\\';
    BackslashTokens(format, rest);
    hide *;
    InFrontOfCompact("\"\\\\\"", format, Literal(['\\']));
    ShapeReturns(format, [Literal(['\\'])], [], []);
  }

  lemma BackslashTokens(format: string, rest: string)
    requires format == "\"\\\\\"" + rest
    ensures FirstToken(format) == Some(Scanned(Literal(['\\']), 4))
  {
    assert format == ['"'] + ("\\\\" + (['"'] + rest));
    hide *;
    QuotedToken("\\\\", '\\', rest, format);
  }

  /** An apostrophe outside quoted text is accepted by parsing and refused by printing. */
  lemma ApostropheExample()
    ensures Loses("'YYYYMMDDSSSSSFF6")
  {
    var format := "'YYYYMMDDSSSSSFF6";
    assert format == "'" + "YYYYMMDDSSSSSFF6" && format[0] == '\'';
    InFrontOfCompact("'", format, Literal("'"));
    hide FirstToken, Tokens, Returns, Loses;
    ShapeReturns(format, [Literal("'")], [], []);
  }

  lemma QuotedPlain(c: char, format: string)
    requires c != '\\' && c != '\''
    requires format == "YYYY" + (['"', c, '"'] + "MMDDSSSSSFF6") || format == "YYYY" + ("MMDDSSSSSFF6" + ['"', c, '"'])
    ensures NoApostrophe(format) && '\\' !in format
  {
    hide NoApostrophe;
    forall i | 0 <= i < |format| ensures format[i] != '\'' && format[i] != '\\' {}
    Plain(format);
  }

  lemma QuotedMiddle(c: char, format: string)
    requires c != '"' && c != '\\' && format == "YYYY" + (['"', c, '"'] + "MMDDSSSSSFF6")
    ensures Tokens(format) == Some(Shape([], [Literal([c])], []))
  {
    assert Tokens("") == Some([]) && "MMDDSSSSSFF6" + "" == "MMDDSSSSSFF6";
    assert [YEAR] + ([Literal([c])] + (DAY_TIME + [])) == Shape([], [Literal([c])], []);
    hide *;
    DayTimeTokens("", []);
    QuotedInFront(c, "MMDDSSSSSFF6", DAY_TIME + []);
    YearInFront(['"', c, '"'] + "MMDDSSSSSFF6", [Literal([c])] + (DAY_TIME + []));
  }

  lemma MiddleUnambiguous(c: char)
    ensures Unambiguous(Shape([], [Literal([c])], [])) <==> !Digit(c)
  {
    var toks := Shape([], [Literal([c])], []);
    DayTimeTidy([]);
    assert toks[1..][1..] == DAY_TIME + [];
    TidyCons(toks);
    TidyCons(toks[1..]);
    assert TidyHead(toks[1..]) && StartClass(toks[1..]) == ClassOf(c) && toks[|toks| - 1] == DAY_TIME[3];
    hide Tidy;
  }

  /** A quoted character after the year is read back exactly when it is not a digit. */
  lemma QuotedExample(c: char, format: string)
    requires c != '"' && c != '\\' && c != '\'' && format == "YYYY" + (['"', c, '"'] + "MMDDSSSSSFF6")
    ensures Digit(c) ==> Loses(format)
    ensures !Digit(c) ==> Returns(format)
  {
    QuotedPlain(c, format);
    hide *;
    QuotedMiddle(c, format);
    MiddleUnambiguous(c);
    ShapeReturns(format, [], [Literal([c])], []);
  }

  lemma QuotedLast(c: char, format: string)
    requires c != '"' && c != '\\' && format == "YYYY" + ("MMDDSSSSSFF6" + ['"', c, '"'])
    ensures Tokens(format) == Some(Shape([], [], [Literal([c])]))
  {
    assert Tokens("") == Some([]) && ['"', c, '"'] + "" == ['"', c, '"'] && [Literal([c])] + [] == [Literal([c])];
    assert [YEAR] + (DAY_TIME + [Literal([c])]) == Shape([], [], [Literal([c])]);
    hide *;
    QuotedInFront(c, "", []);
    DayTimeTokens(['"', c, '"'], [Literal([c])]);
    YearInFront("MMDDSSSSSFF6" + ['"', c, '"'], DAY_TIME + [Literal([c])]);
  }

  lemma LastUnambiguous(c: char)
    ensures Unambiguous(Shape([], [], [Literal([c])])) <==> !WhiteSpace(c)
  {
    var toks := Shape([], [], [Literal([c])]);
    DayTimeTidy([Literal([c])]);
    assert toks[1..] == DAY_TIME + [Literal([c])];
    TidyCons(toks);
    assert toks[|toks| - 1] == Literal([c]);
    hide Tidy;
  }

  /** A quoted character at the end is read back exactly when it is no white space, the ideographic space included. */
  lemma LastQuotedExample(c: char, format: string)
    requires c != '"' && c != '\\' && c != '\'' && format == "YYYY" + ("MMDDSSSSSFF6" + ['"', c, '"'])
    ensures WhiteSpace(c) ==> Loses(format)
    ensures !WhiteSpace(c) ==> Returns(format)
    ensures WhiteSpace('\U{3000}')
  {
    QuotedPlain(c, format);
    assert WhiteSpace('\U{3000}');
    hide *;
    QuotedLast(c, format);
    LastUnambiguous(c);
    ShapeReturns(format, [], [], [Literal([c])]);
  }

  // ----- TIMESTAMP with the hours of its zone -----

  const ZONED: seq<Token> := [YEAR] + (DAY_TIME + [Elem(TZH, "TZH")])

  lemma ZonedTokens()
    ensures Tokens("YYYYMMDDSSSSSFF6TZH") == Some(ZONED)
  {
    var zone := [Elem(TZH, "TZH")];
    assert Tokens("") == Some([]) && "TZH" + "" == "TZH" && zone + [] == zone && Name(TZH) == "TZH";
    assert "YYYY" + ("MMDDSSSSSFF6" + "TZH") == "YYYYMMDDSSSSSFF6TZH" && Distinctive(TZH, "");
    assert [YEAR] + (DAY_TIME + zone) == ZONED;
    hide *;
    InFront(TZH, "TZH", "", "TZH", []);
    DayTimeTokens("TZH", zone);
    YearInFront("MMDDSSSSSFF6" + "TZH", DAY_TIME + zone);
  }

  lemma ZonedFixes()
    ensures HasYear(ZONED) && HasMicros(ZONED) && ZONED == [YEAR] + (DAY_TIME + [Elem(TZH, "TZH")])
  {
    assert ZONED[0] == YEAR && ZONED[4] == DAY_TIME[3] && FourDigitYear(ZONED[0]) && Micros(ZONED[4]);
  }

  lemma ZonedFits()
    ensures ValidModel(ZONED, TIMESTAMP) && Fixes(ZONED, TIMESTAMP)
    ensures KindOf(ZONED, TIMESTAMP) == Kind(true, true, false, true, false)
  {
    hide Sets, DAY_TIME, REST, ZONED, ValidModel, KindOf, HasYear, HasMicros, HasPart, ALL;
    ZonedFixes();
    SetsOne(YYYY, "YYYY", TIMESTAMP);
    SetsOne(TZH, "TZH", TIMESTAMP);
    SetsDayTime(TIMESTAMP);
    DayTimeParts();
    YearApart();
    SetsJoin(DAY_TIME, [Elem(TZH, "TZH")], REST, {ZoneHour}, TIMESTAMP);
    SetsJoin([YEAR], DAY_TIME + [Elem(TZH, "TZH")], {Year}, REST + {ZoneHour}, TIMESTAMP);
    SetsModel(ZONED, ALL + {ZoneHour}, TIMESTAMP);
  }

  lemma ZonedUnambiguous()
    ensures Unambiguous(ZONED)
  {
    var d := DAY_TIME + [Elem(TZH, "TZH")];
    assert d[4..] == [Elem(TZH, "TZH")] && d[4..][1..] == [] && d[3..][1..] == d[4..] && d[2..][1..] == d[3..];
    assert d[1..][1..] == d[2..] && ZONED[1..] == d && ZONED[5] == Elem(TZH, "TZH");
    assert TidyHead(d[4..]) && TidyHead(d[3..]) && TidyHead(d[2..]) && TidyHead(d[1..]) && TidyHead(d);
    assert Tidy(d[4..]);
    TidyCons(d[3..]);
    TidyCons(d[2..]);
    TidyCons(d[1..]);
    TidyCons(d);
    TidyCons(ZONED);
    hide Tidy;
  }

  /** TZH without TZM gives a TIMESTAMP back exactly when its offset is a whole number of hours, 14 at most. */
  lemma ZoneExample(m: Moment, now: Today)
    requires ValidMoment(m)
    ensures ReadsBackAt("YYYYMMDDSSSSSFF6TZH", m, TIMESTAMP, now) <==> Away(m) < 15 * 3600 && Away(m) % 3600 == 0
  {
    var format := "YYYYMMDDSSSSSFF6TZH";
    Plain(format);
    assert OffsetShown(m, Kind(true, true, false, true, false)) <==> Away(m) < 15 * 3600 && Away(m) % 3600 == 0 by {
      SplitOffset(Away(m));
    }
    hide *;
    ZonedTokens();
    ZonedFits();
    ZonedUnambiguous();
    RoundTrip(format, ZONED, m, TIMESTAMP, now);
  }
}

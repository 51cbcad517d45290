/** Formats that printing and parsing read differently: a backslash in quoted text, and an apostrophe outside it. */
module DateTimeEscapes {
  import opened Sequences
  import opened Decimals
  import opened Ascii
  import opened DateTimeElements
  import opened DateTimePrinting
  import opened DateTimeParsing
  import opened DateTimeReading

  // ----- counting backslashes -----

  function Slashes(s: string): nat {
    if s == [] then 0 else (if s[0] == '\\' then 1 else 0) + Slashes(s[1..])
  }

  lemma {:induction false} SlashesConcat(a: string, b: string)
    ensures Slashes(a + b) == Slashes(a) + Slashes(b)
    decreases |a|
  {
    if a == [] {
      assert a + b == b;
    } else {
      assert (a + b)[1..] == a[1..] + b;
      SlashesConcat(a[1..], b);
    }
  }

  lemma SlashesSplit(s: string, n: nat)
    requires n <= |s|
    ensures Slashes(s) == Slashes(s[..n]) + Slashes(s[n..])
  {
    SlashesConcat(s[..n], s[n..]);
    assert s[..n] + s[n..] == s;
  }

  lemma {:induction false} NoSlash(s: string)
    ensures Slashes(s) == 0 <==> '\\' !in s
    decreases |s|
  {
    if s != [] {
      NoSlash(s[1..]);
      assert s == [s[0]] + s[1..];
    }
  }

  // ----- printing copies every backslash -----

  lemma NameNoSlash(e: Element)
    ensures '\\' !in Name(e)
  {
    match e
    case FF(n) => assert DigitChar(n) != '\\';
    case _ =>
  }

  /** The spelling of an element in a format. */
  lemma ElementNoSlash(s: string, word: string)
    requires StartsWith(s, word) && '\\' !in word
    ensures '\\' !in s[..|word|]
  {
    forall i | 0 <= i < |word| ensures s[..|word|][i] != '\\' {
      assert LowerChar(s[..|word|][i]) == LowerChar(word[i]);
      assert word[i] in word;
    }
  }

  lemma PieceSlashes(format: string, m: Moment, t: Type)
    requires ValidMoment(m) && format != [] && FirstPiece(format, m, t).Some?
    ensures var p := FirstPiece(format, m, t).value; Slashes(format[..p.length]) <= Slashes(p.text)
  {
    var c := format[0];
    var p := FirstPiece(format, m, t).value;
    var used := format[..p.length];
    if c == '"' {
      assert used == ['"'] + p.text + ['"'];
      SlashesConcat(['"'] + p.text, ['"']);
      SlashesConcat(['"'], p.text);
    } else if c == ' ' || Punctuation(c) {
      assert used == [c];
    } else {
      var e := FirstMatch(PRINT_ELEMENTS, format).value;
      hide Render, FirstMatch;
      NameNoSlash(e);
      ElementNoSlash(format, Name(e));
      NoSlash(used);
    }
  }

  lemma {:induction false} PrintSlashes(format: string, m: Moment, t: Type)
    requires ValidMoment(m) && Print(format, m, t).Some?
    ensures Slashes(format) <= Slashes(Print(format, m, t).value)
    decreases |format|
  {
    if format != [] {
      var p := FirstPiece(format, m, t).value;
      PrintSlashes(format[p.length..], m, t);
      PieceSlashes(format, m, t);
      hide FirstPiece, Slashes;
      SlashesSplit(format, p.length);
      SlashesConcat(p.text, Print(format[p.length..], m, t).value);
    }
  }

  // ----- parsing asks for fewer -----

  function Asked(toks: seq<Token>): nat {
    if toks == [] then 0 else (if toks[0].Literal? then Slashes(toks[0].text) else 0) + Asked(toks[1..])
  }

  /** No more, and less if there is one. */
  predicate Fewer(asked: nat, given: nat) { asked <= given && (given > 0 ==> asked < given) }

  lemma {:induction false} UnquotedSlashes(s: string)
    requires Unquoted(s).Some?
    ensures var p := Unquoted(s).value; Fewer(Slashes(p.text), Slashes(s[..p.length]))
    decreases |s|
  {
    if s[0] == '"' {
      assert s[..1] == ['"'];
    } else {
      var n := if s[0] == '\\' && 1 < |s| then 2 else 1;
      UnquotedSlashes(s[n..]);
      var r, p := Unquoted(s[n..]).value, Unquoted(s).value;
      assert s[..p.length] == s[..n] + s[n..][..r.length];
      SlashesConcat(s[..n], s[n..][..r.length]);
      SlashesConcat([s[n - 1]], r.text);
      assert s[..n] == if n == 2 then [s[0]] + [s[1]] else [s[0]];
      SlashesConcat([s[0]], [s[n - 1]]);
      assert Slashes([s[n - 1]]) == if s[n - 1] == '\\' then 1 else 0;
    }
  }

  lemma TokenSlashes(format: string)
    requires format != [] && FirstToken(format).Some?
    ensures var r := FirstToken(format).value;
      Fewer(if r.token.Literal? then Slashes(r.token.text) else 0, Slashes(format[..r.length]))
  {
    var c := format[0];
    var r := FirstToken(format).value;
    var used := format[..r.length];
    if c == '"' {
      UnquotedSlashes(format[1..]);
      var n := Unquoted(format[1..]).value.length;
      assert used == ['"'] + format[1..][..n];
      SlashesConcat(['"'], format[1..][..n]);
    } else if c == ' ' {
      NoSlash(used);
    } else if Punctuation(c) || c == '\'' {
      assert used == [c];
    } else {
      var e := FirstMatch(PARSE_ELEMENTS, format).value;
      hide FirstMatch;
      NameNoSlash(e);
      ElementNoSlash(format, Name(e));
      NoSlash(used);
    }
  }

  lemma {:induction false} TokensSlashes(format: string, toks: seq<Token>)
    requires Tokens(format) == Some(toks)
    ensures Fewer(Asked(toks), Slashes(format))
    decreases |format|
  {
    if format != [] {
      TokensSplit(format, toks);
      var n := FirstToken(format).value.length;
      TokensSlashes(format[n..], toks[1..]);
      TokenSlashes(format);
      hide FirstToken, Tokens, Slashes;
      SlashesSplit(format, n);
    }
  }

  // ----- reading consumes what is asked for -----

  /** What is left of the text after some of it without a backslash. */
  predicate Passes(s: string, rest: string) {
    |rest| <= |s| && rest == s[|s| - |rest|..] && '\\' !in s[..|s| - |rest|]
  }

  lemma PassesFirst(s: string, n: nat)
    requires n <= |s| && '\\' !in s[..n]
    ensures Passes(s, s[n..])
  {
    assert |s| - |s[n..]| == n;
  }

  lemma PassesTwice(s: string, r: string, rest: string)
    requires Passes(s, r) && Passes(r, rest)
    ensures Passes(s, rest)
  {
    var a, b := |s| - |r|, |r| - |rest|;
    assert s[..a + b] == s[..a] + r[..b];
    assert s[a + b..] == r[b..];
  }

  lemma PassesSlashes(s: string, rest: string)
    requires Passes(s, rest)
    ensures Slashes(s) == Slashes(rest)
  {
    var n := |s| - |rest|;
    SlashesSplit(s, n);
    NoSlash(s[..n]);
  }

  lemma ReadDigitsPasses(s: string, min: nat, max: nat)
    ensures var v := ReadDigits(s, min, max); v.Some? ==> Passes(s, v.value.rest)
  {
    var n := DigitRun(s, max);
    assert forall i :: 0 <= i < n ==> s[..n][i] != '\\';
    PassesFirst(s, n);
  }

  lemma ReadYearPasses(e: Element, s: string, delimited: bool, f: Fields, now: Today)
    requires PartOf(e) == Year
    ensures var r := ReadYear(e, s, delimited, f, now); r.Some? ==> Passes(s, r.value.rest)
  {
    forall t, min, max ensures var v := ReadDigits(t, min, max); v.Some? ==> Passes(t, v.value.rest) {
      ReadDigitsPasses(t, min, max);
    }
    hide ReadDigits, Passes;
    if e.YCommaYYY? && ReadYear(e, s, delimited, f, now).Some? {
      var hi := ReadDigits(s, 1, 2).value.rest;
      assert hi[0] == ',';
      assert '\\' !in hi[..1];
      PassesFirst(hi, 1);
      PassesTwice(s, hi, hi[1..]);
      PassesTwice(s, hi[1..], ReadDigits(hi[1..], 3, 3).value.rest);
    }
  }

  lemma MonthNoSlash(m: nat, short: bool)
    requires 1 <= m <= 12
    ensures '\\' !in MonthText(m, short)
  {
    forall i | 0 <= i < |MonthText(m, short)| ensures MonthText(m, short)[i] != '\\' { MonthLetters(m, i); }
  }

  lemma {:induction false} FoundMonth(s: string, short: bool, m: nat)
    requires 1 <= m <= 13 && FindMonth(s, short, m).Some?
    ensures StartsWith(s, MonthText(FindMonth(s, short, m).value, short))
    decreases 13 - m
  {
    hide StartsWith;
    if m < 13 && !StartsWith(s, MonthText(m, short)) { FoundMonth(s, short, m + 1); }
  }

  lemma ReadMonthPasses(e: Element, s: string, delimited: bool, f: Fields)
    requires PartOf(e) == Month
    ensures var r := ReadMonth(e, s, delimited, f); r.Some? ==> Passes(s, r.value.rest)
  {
    ReadDigitsPasses(s, 1, 2);
    ReadDigitsPasses(s, 2, 2);
    hide ReadDigits, Passes;
    var m := FindMonth(s, e.MON?, 1);
    if !e.MM? && m.Some? {
      FoundMonth(s, e.MON?, 1);
      MonthNoSlash(m.value, e.MON?);
      hide FindMonth, MonthText, StartsWith;
      ElementNoSlash(s, MonthText(m.value, e.MON?));
      PassesFirst(s, |MonthText(m.value, e.MON?)|);
    }
  }

  lemma ReadDayHalfPasses(s: string, f: Fields)
    ensures var r := ReadDayHalf(s, f); r.Some? ==> Passes(s, r.value.rest)
  {
    if ReadDayHalf(s, f).Some? {
      forall i | 0 <= i < 4 ensures s[..4][i] != '\\' {
        assert Upper(s[..4])[i] == UpperChar(s[..4][i]);
      }
      PassesFirst(s, 4);
    }
  }

  lemma ReadZonePasses(s: string, delimited: bool, f: Fields)
    ensures var r := ReadZoneHour(s, delimited, f); r.Some? ==> Passes(s, r.value.rest)
  {
    if ReadZoneHour(s, delimited, f).Some? {
      assert '\\' !in s[..1];
      PassesFirst(s, 1);
      ReadDigitsPasses(s[1..], 1, 2);
      ReadDigitsPasses(s[1..], 2, 2);
      hide ReadDigits, Passes;
      PassesTwice(s, s[1..], ReadNumber(s[1..], delimited, 2, 2).value.rest);
    }
  }

  lemma ReadElementPasses(e: Element, s: string, delimited: bool, f: Fields, now: Today)
    ensures var r := ReadElement(e, s, delimited, f, now); r.Some? ==> Passes(s, r.value.rest)
  {
    if PartOf(e) == Year {
      ReadYearPasses(e, s, delimited, f, now);
    } else if PartOf(e) == Month {
      ReadMonthPasses(e, s, delimited, f);
    } else if PartOf(e) == DayHalf {
      ReadDayHalfPasses(s, f);
    } else if PartOf(e) == ZoneHour {
      ReadZonePasses(s, delimited, f);
    } else {
      ReadDigitsPasses(s, 1, DigitWidth(e));
      ReadDigitsPasses(s, DigitWidth(e), DigitWidth(e));
      hide ReadDigits, Passes, SetNumber, PartOf;
    }
  }

  lemma {:induction false} SkipSpacePasses(s: string)
    ensures Passes(s, SkipSpace(s))
    decreases |s|
  {
    if s == [] || !WhiteSpace(s[0]) {
      PassesFirst(s, 0);
      assert s[0..] == s;
    } else {
      SkipSpacePasses(s[1..]);
      assert '\\' !in s[..1];
      PassesFirst(s, 1);
      PassesTwice(s, s[1..], SkipSpace(s[1..]));
    }
  }

  lemma ReadTokenSlashes(tok: Token, next: seq<Token>, s: string, f: Fields, now: Today)
    ensures var r := ReadToken(tok, next, s, f, now);
      r.Some? ==> Slashes(s) == (if tok.Literal? then Slashes(tok.text) else 0) + Slashes(r.value.rest)
  {
    var r := ReadToken(tok, next, s, f, now);
    if r.Some? {
      match tok
      case Space(_) =>
        SkipSpacePasses(s);
        PassesSlashes(s, SkipSpace(s));
      case Literal(text) =>
        SlashesSplit(s, |text|);
        assert s[..|text|] == text;
      case Elem(e, _) =>
        ReadElementPasses(e, s, Delimited(next), f, now);
        hide ReadElement, Passes, Slashes;
        PassesSlashes(s, r.value.rest);
    }
  }

  lemma {:induction false} ReadTokensSlashes(toks: seq<Token>, s: string, f: Fields, now: Today)
    ensures var r := ReadTokens(toks, s, f, now); r.Some? ==> Slashes(s) == Asked(toks) + Slashes(r.value.rest)
    decreases |toks|
  {
    if toks != [] {
      ReadTokenSlashes(toks[0], toks[1..], s, f, now);
      var r := ReadToken(toks[0], toks[1..], s, f, now);
      hide ReadToken, Slashes;
      if r.Some? { ReadTokensSlashes(toks[1..], r.value.rest, r.value.fields, now); }
    }
  }

  lemma {:induction false} TrimEndSlashes(s: string)
    ensures Slashes(TrimEnd(s)) == Slashes(s)
    decreases |s|
  {
    if s != [] && WhiteSpace(s[|s| - 1]) {
      var n := |s| - 1;
      TrimEndSlashes(s[..n]);
      SlashesSplit(s, n);
      assert s[n..] == [s[n]];
    }
  }

  lemma TrimSlashes(s: string)
    ensures Slashes(Trim(s)) == Slashes(s)
  {
    SkipSpacePasses(s);
    PassesSlashes(s, SkipSpace(s));
    TrimEndSlashes(SkipSpace(s));
  }

  /** A format with a backslash never reads its own output to the end. */
  lemma SlashMissed(format: string, toks: seq<Token>, m: Moment, t: Type, f: Fields, now: Today)
    requires ValidMoment(m) && Tokens(format) == Some(toks) && '\\' in format && Print(format, m, t).Some?
    ensures var r := ReadTokens(toks, Trim(Print(format, m, t).value), f, now); r.None? || r.value.rest != ""
  {
    hide *;
    var text := Print(format, m, t).value;
    NoSlash(format);
    PrintSlashes(format, m, t);
    TokensSlashes(format, toks);
    IsFewer(Asked(toks), Slashes(format));
    TrimSlashes(text);
    ReadTokensSlashes(toks, Trim(text), f, now);
    NoSlash("");
  }

  lemma IsFewer(asked: nat, given: nat)
    requires Fewer(asked, given)
    ensures given > 0 ==> asked < given
  {}

  // ----- an apostrophe outside quoted text is not printed -----

  lemma NoElementQuote(elements: seq<Element>, s: string)
    requires s != [] && s[0] == '\''
    ensures FirstMatch(elements, s) == None
  {
    forall e: Element ensures !StartsWith(s, Name(e)) {
      NameFirst(e);
      assert |Name(e)| <= |s| ==> s[..|Name(e)|][0] == s[0];
    }
  }

  lemma NameFirst(e: Element)
    ensures 'A' <= Name(e)[0] <= 'Z'
  {}

  lemma {:induction false} ApostropheFails(format: string, toks: seq<Token>, m: Moment, t: Type)
    requires ValidMoment(m) && Tokens(format) == Some(toks) && SupportedTokens(toks, t)
    requires '\\' !in format && !NoApostrophe(format)
    ensures Print(format, m, t) == None
    decreases |format|
  {
    TokensSplit(format, toks);
    if format[0] == '\'' {
      NoElementQuote(PRINT_ELEMENTS, format);
    } else {
      var n := FirstToken(format).value.length;
      FirstScanned(format);
      RestSupported(toks, t);
      PrintFirst(format, m, t);
      hide FirstToken, Print, FirstPiece;
      ApostropheFails(format[n..], toks[1..], m, t);
    }
  }
}

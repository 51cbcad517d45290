/** Which number formats are accepted, and which sign and currency they ask for, said over the text of the format. */
module NumberGrammar {
  import opened Sequences
  import opened Ascii
  import opened NumberFormat

  // ----- the elements of a format -----

  const SINGLES: string := "09.Dd,GgSs$LlCcBb"

  /** A word of two letters, in any case. */
  predicate IsWord(u: string, a: char, b: char) { |u| == 2 && UpperChar(u[0]) == a && UpperChar(u[1]) == b }

  predicate IsUnit(u: string) {
    (|u| == 1 && u[0] in SINGLES) || IsWord(u, 'F', 'M') || IsWord(u, 'M', 'I') || IsWord(u, 'P', 'R')
  }

  predicate IsLast(u: string) { IsWord(u, 'M', 'I') || IsWord(u, 'P', 'R') }

  predicate IsPoint(u: string) { u == "." || u == "D" || u == "d" }

  predicate IsSeparator(u: string) { u == "," || u == "G" || u == "g" }

  predicate IsDigit(u: string) { u == "0" || u == "9" }

  function Concat(units: seq<string>): string { if units == [] then "" else units[0] + Concat(units[1..]) }

  /** MI and PR only at the end, one point, no separator after it, and some digit. */
  predicate Accepted(units: seq<string>, point: bool, digit: bool) {
    && (forall i :: 0 <= i < |units| ==> IsUnit(units[i]))
    && (forall i :: 0 <= i < |units| - 1 ==> !IsLast(units[i]))
    && (forall i :: 0 <= i < |units| && (point || exists j :: 0 <= j < i && IsPoint(units[j])) ==>
      !IsPoint(units[i]) && !IsSeparator(units[i]))
    && (digit || exists i :: 0 <= i < |units| && IsDigit(units[i]))
  }

  lemma AcceptedCons(units: seq<string>, point: bool, digit: bool)
    requires units != []
    ensures var u, rest := units[0], units[1..];
      Accepted(units, point, digit) <==>
        (IsUnit(u) && (rest != [] ==> !IsLast(u)) && (point ==> !IsPoint(u) && !IsSeparator(u))
         && Accepted(rest, point || IsPoint(u), digit || IsDigit(u)))
  {
    hide IsUnit, IsLast, IsPoint, IsSeparator, IsDigit;
    var u, rest := units[0], units[1..];
    assert forall i :: 0 <= i < |rest| ==> rest[i] == units[i + 1];
    if Accepted(units, point, digit) { AcceptedTail(units, point, digit); }
    if IsUnit(u) && (rest != [] ==> !IsLast(u)) && (point ==> !IsPoint(u) && !IsSeparator(u))
       && Accepted(rest, point || IsPoint(u), digit || IsDigit(u)) {
      AcceptedHead(units, point, digit);
    }
  }

  lemma AcceptedTail(units: seq<string>, point: bool, digit: bool)
    requires units != [] && Accepted(units, point, digit)
    ensures Accepted(units[1..], point || IsPoint(units[0]), digit || IsDigit(units[0]))
  {
    hide IsUnit, IsLast, IsPoint, IsSeparator, IsDigit;
    var u, rest := units[0], units[1..];
    assert forall i :: 0 <= i < |rest| ==> rest[i] == units[i + 1];
    forall i | 0 <= i < |rest| && (point || IsPoint(u) || exists j :: 0 <= j < i && IsPoint(rest[j]))
      ensures !IsPoint(rest[i]) && !IsSeparator(rest[i])
    {
      if IsPoint(u) { assert IsPoint(units[0]); }
      if j :| 0 <= j < i && IsPoint(rest[j]) { assert IsPoint(units[j + 1]); }
    }
    if !digit && !IsDigit(u) {
      var i :| 0 <= i < |units| && IsDigit(units[i]);
      assert IsDigit(rest[i - 1]);
    }
  }

  lemma AcceptedHead(units: seq<string>, point: bool, digit: bool)
    requires units != []
    requires var u, rest := units[0], units[1..];
      IsUnit(u) && (rest != [] ==> !IsLast(u)) && (point ==> !IsPoint(u) && !IsSeparator(u))
      && Accepted(rest, point || IsPoint(u), digit || IsDigit(u))
    ensures Accepted(units, point, digit)
  {
    hide IsUnit, IsLast, IsPoint, IsSeparator, IsDigit;
    var u, rest := units[0], units[1..];
    assert forall i :: 0 <= i < |rest| ==> rest[i] == units[i + 1];
    forall i | 0 <= i < |units| && (point || exists j :: 0 <= j < i && IsPoint(units[j]))
      ensures !IsPoint(units[i]) && !IsSeparator(units[i])
    {
      if i > 0 {
        if j :| 0 <= j < i && IsPoint(units[j]) { if j > 0 { assert IsPoint(rest[j - 1]); } }
        assert units[i] == rest[i - 1];
      }
    }
    if !digit && !IsDigit(u) {
      var i :| 0 <= i < |rest| && IsDigit(rest[i]);
      assert IsDigit(units[i + 1]);
    }
  }

  // ----- the first element -----

  lemma SingleIff(c: char)
    ensures c in SINGLES <==>
      || Element09(c) || Point(c) || Separator(c) || Currency(c)
      || c == 'B' || c == 'b' || c == 'S' || c == 's'
    ensures IsPoint([c]) == Point(c) && IsSeparator([c]) == Separator(c) && IsDigit([c]) == Element09(c)
  {}

  /** The length of the first element. */
  function First(s: string): nat { if Word(s) then 2 else 1 }

  predicate Allowed(u: string, more: bool, point: bool) {
    IsUnit(u) && (more ==> !IsLast(u)) && (point ==> !IsPoint(u) && !IsSeparator(u))
  }

  lemma WordUnit(s: string, f: Format, seenDigit: bool)
    requires Word(s)
    ensures |s| >= 2 && (Element(s, f, seenDigit).Some? <==> Allowed(s[..2], 2 < |s|, f.hasPoint))
  {
    var u := s[..2];
    assert u[0] == s[0] && u[1] == s[1];
    assert IsUnit(u) && !IsPoint(u) && !IsSeparator(u);
    assert IsLast(u) <==> !Starts(s, 'F', 'M');
    hide IsUnit, IsLast, IsPoint, IsSeparator;
  }

  lemma SingleUnit(s: string, f: Format, seenDigit: bool)
    requires s != [] && !Word(s)
    ensures Element(s, f, seenDigit).Some? <==> Allowed([s[0]], 1 < |s|, f.hasPoint)
  {
    SingleIff(s[0]);
    assert !IsLast([s[0]]) && (IsUnit([s[0]]) <==> s[0] in SINGLES);
    hide SINGLES, IsUnit, IsLast, IsPoint, IsSeparator, IsDigit, Starts, Word;
    NotUnsupported(s);
  }

  /** Elements that are rejected by name are no single characters. */
  lemma NotUnsupported(s: string)
    requires s != []
    ensures NumberFormat.Unsupported(s) ==> s[0] !in SINGLES
  {}

  lemma FirstUnit(s: string, f: Format, seenDigit: bool)
    requires s != []
    ensures First(s) <= |s|
    ensures Element(s, f, seenDigit).Some? <==> Allowed(s[..First(s)], First(s) < |s|, f.hasPoint)
  {
    if Word(s) {
      WordUnit(s, f, seenDigit);
    } else {
      assert s[..1] == [s[0]];
      SingleUnit(s, f, seenDigit);
    }
    hide Element, Allowed, Word;
  }

  lemma FirstEffect(s: string, f: Format, seenDigit: bool)
    requires s != [] && Element(s, f, seenDigit).Some?
    ensures var u, e := s[..First(s)], Element(s, f, seenDigit).value;
      && e.length == |u| && e.f.hasPoint == (f.hasPoint || IsPoint(u))
      && (e.f.intDigits + e.f.fracDigits > 0 <==> f.intDigits + f.fracDigits > 0 || IsDigit(u))
  {
    var u := s[..First(s)];
    if Word(s) {
      assert |u| == 2;
    } else {
      assert u == [s[0]];
      SingleIff(s[0]);
      hide SINGLES;
    }
  }

  /** A unit at the start of a text is its first element. */
  lemma UnitFirst(u: string, rest: string)
    requires IsUnit(u)
    ensures First(u + rest) == |u| && (u + rest)[..|u|] == u && (u + rest)[|u|..] == rest
  {
    var s := u + rest;
    assert s[0] == u[0];
    if |u| == 2 { assert s[1] == u[1]; } else { SingleIff(u[0]); hide SINGLES; }
  }

  // ----- acceptance -----

  lemma {:induction false} AcceptedUnits(s: string, f: Format, seenDigit: bool) returns (units: seq<string>)
    requires ParseFrom(s, f, seenDigit).Some?
    ensures Concat(units) == s && Accepted(units, f.hasPoint, f.intDigits + f.fracDigits > 0)
    decreases |s|
  {
    if s == [] {
      units := [];
    } else {
      hide Element, IsUnit, IsLast, IsPoint, IsSeparator, IsDigit, Accepted, First;
      FirstUnit(s, f, seenDigit);
      FirstEffect(s, f, seenDigit);
      var e, u := Element(s, f, seenDigit).value, s[..First(s)];
      var rest := AcceptedUnits(s[|u|..], e.f, e.seenDigit);
      units := [u] + rest;
      assert units[1..] == rest && u + s[|u|..] == s;
      AcceptedCons(units, f.hasPoint, f.intDigits + f.fracDigits > 0);
    }
  }

  lemma {:induction false} UnitsAccepted(units: seq<string>, f: Format, seenDigit: bool)
    requires Accepted(units, f.hasPoint, f.intDigits + f.fracDigits > 0)
    ensures ParseFrom(Concat(units), f, seenDigit).Some?
    decreases |units|
  {
    if units != [] {
      var u, tail := units[0], Concat(units[1..]);
      var s := Concat(units);
      AcceptedCons(units, f.hasPoint, f.intDigits + f.fracDigits > 0);
      UnitFirst(u, tail);
      assert s == u + tail;
      assert tail != [] ==> units[1..] != [];
      hide Element, IsUnit, IsLast, IsPoint, IsSeparator, IsDigit, Accepted, First;
      NotEmpty(u);
      FirstUnit(s, f, seenDigit);
      FirstEffect(s, f, seenDigit);
      var e := Element(s, f, seenDigit).value;
      UnitsAccepted(units[1..], e.f, e.seenDigit);
    }
  }

  lemma NotEmpty(u: string)
    requires IsUnit(u)
    ensures u != []
  {}

  /** A format is accepted exactly when it is a sequence of elements in an order the rules allow. */
  lemma ParseAccepts(format: string)
    ensures Parse(format).Some? <==> exists units :: Concat(units) == format && Accepted(units, false, false)
  {
    hide ParseFrom, Accepted;
    if Parse(format).Some? { var units := AcceptedUnits(format, NO_ELEMENTS, false); }
    if units :| Concat(units) == format && Accepted(units, false, false) { UnitsAccepted(units, NO_ELEMENTS, false); }
  }

  // ----- the sign and the currency -----

  predicate IsDollar(c: char) { c == '$' || c == 'L' || c == 'l' }

  predicate IsS(c: char) { c == 'S' || c == 's' }

  /** A digit element, a point or a currency. */
  predicate StartsNumber(c: char) {
    c == '0' || c == '9' || c == '.' || c == 'D' || c == 'd' || IsDollar(c) || c == 'C' || c == 'c'
  }

  function CurrencyAfter(c: char, before: string): string {
    if IsDollar(c) then "$" else if c == 'C' then "USD" else if c == 'c' then "usd" else before
  }

  /** The last currency asked for. */
  function CurrencyIn(s: string): string {
    if s == [] then "" else CurrencyAfter(s[|s| - 1], CurrencyIn(s[..|s| - 1]))
  }

  predicate EndsWith(s: string, a: char, b: char) { |s| >= 2 && IsWord(s[|s| - 2..], a, b) }

  /** What stands before the last S. */
  function BeforeLastS(s: string): Option<string> {
    if s == [] then None
    else if IsS(s[|s| - 1]) then Some(s[..|s| - 1])
    else BeforeLastS(s[..|s| - 1])
  }

  predicate NumberStarted(s: string) { exists i :: 0 <= i < |s| && StartsNumber(s[i]) }

  /** MI or PR at the end, or the last S, which leads when no digit, point or currency comes before it. */
  function SignIn(s: string): Sign {
    if EndsWith(s, 'M', 'I') then MI
    else if EndsWith(s, 'P', 'R') then PR
    else
      match BeforeLastS(s)
      case None => Default
      case Some(before) => if NumberStarted(before) then TrailingS else LeadingS
  }

  /** The format so far has the sign and the currency of the text read, and MI and PR end the text. */
  ghost predicate Marked(read: string, s: string, f: Format, seenDigit: bool) {
    && f.sign == SignIn(read) && f.currency == CurrencyIn(read)
    && (NumberStarted(read) <==> seenDigit || f.hasPoint || f.currency != "")
    && (s != [] ==> !EndsWith(read, 'M', 'I') && !EndsWith(read, 'P', 'R'))
  }

  lemma ReadMore(read: string, c: char)
    ensures CurrencyIn(read + [c]) == CurrencyAfter(c, CurrencyIn(read))
    ensures BeforeLastS(read + [c]) == if IsS(c) then Some(read) else BeforeLastS(read)
    ensures NumberStarted(read + [c]) <==> NumberStarted(read) || StartsNumber(c)
  {
    assert (read + [c])[..|read|] == read && (read + [c])[|read|] == c;
    assert forall i :: 0 <= i < |read| ==> (read + [c])[i] == read[i];
  }

  lemma NoWordEnd(read: string, c: char)
    requires UpperChar(c) != 'I' && UpperChar(c) != 'R'
    ensures !EndsWith(read + [c], 'M', 'I') && !EndsWith(read + [c], 'P', 'R')
  {
    var s := read + [c];
    if |s| >= 2 { assert s[|s| - 2..][1] == c; }
  }

  lemma WordEnd(read: string, u: string)
    requires |u| == 2
    ensures EndsWith(read + u, 'M', 'I') == IsWord(u, 'M', 'I') && EndsWith(read + u, 'P', 'R') == IsWord(u, 'P', 'R')
  {
    assert (read + u)[|read + u| - 2..] == u;
  }

  lemma MarkedWord(read: string, s: string, f: Format, seenDigit: bool)
    requires Word(s) && Marked(read, s, f, seenDigit) && Element(s, f, seenDigit).Some?
    ensures var e := Element(s, f, seenDigit).value; Marked(read + s[..2], s[2..], e.f, e.seenDigit)
  {
    var u, e := s[..2], Element(s, f, seenDigit).value;
    assert read + u == (read + [s[0]]) + [s[1]];
    ReadMore(read, s[0]);
    ReadMore(read + [s[0]], s[1]);
    WordEnd(read, u);
    WordLetters(s);
    assert e.seenDigit == seenDigit && e.f.hasPoint == f.hasPoint && e.f.currency == f.currency;
    assert IsWord(u, 'M', 'I') == Starts(s, 'M', 'I') && IsWord(u, 'P', 'R') == Starts(s, 'P', 'R');
    assert e.f.sign == if Starts(s, 'F', 'M') then f.sign else if Starts(s, 'M', 'I') then MI else PR;
    assert !Starts(s, 'F', 'M') ==> |s| == 2;
    hide EndsWith, IsWord, CurrencyIn, BeforeLastS, NumberStarted, Element;
  }

  lemma WordLetters(s: string)
    requires Word(s)
    ensures !StartsNumber(s[0]) && !StartsNumber(s[1]) && !IsS(s[0]) && !IsS(s[1])
    ensures !(Starts(s, 'F', 'M') && (Starts(s, 'M', 'I') || Starts(s, 'P', 'R')))
    ensures !(Starts(s, 'M', 'I') && Starts(s, 'P', 'R'))
  {}

  lemma MarkedSingle(read: string, s: string, f: Format, seenDigit: bool)
    requires s != [] && !Word(s) && Marked(read, s, f, seenDigit) && Element(s, f, seenDigit).Some?
    ensures var e := Element(s, f, seenDigit).value; Marked(read + s[..1], s[1..], e.f, e.seenDigit)
  {
    hide EndsWith, CurrencyIn, BeforeLastS, NumberStarted, Element, Word, UpperChar, StartsNumber, IsS, CurrencyAfter;
    var c := s[0];
    assert s[..1] == [c];
    ReadMore(read, c);
    SingleStep(s, f, seenDigit);
    NoWordEnd(read, c);
    StartsCurrency(c, f.currency);
  }

  lemma StartsCurrency(c: char, before: string)
    ensures CurrencyAfter(c, before) != "" <==> before != "" || IsDollar(c) || c == 'C' || c == 'c'
    ensures StartsNumber(c) <==> c == '0' || c == '9' || Point(c) || IsDollar(c) || c == 'C' || c == 'c'
    ensures IsS(c) ==> CurrencyAfter(c, before) == before && !StartsNumber(c)
  {}

  /** What a single character does to the sign, the currency, the point and the digits. */
  lemma SingleStep(s: string, f: Format, seenDigit: bool)
    requires s != [] && !Word(s) && Element(s, f, seenDigit).Some?
    ensures var c, e := s[0], Element(s, f, seenDigit).value;
      && (e.f.hasPoint <==> f.hasPoint || Point(c)) && (e.seenDigit <==> seenDigit || c == '0' || c == '9')
      && e.f.currency == CurrencyAfter(c, f.currency)
      && e.f.sign == (if !IsS(c) then f.sign
        else if seenDigit || f.hasPoint || f.currency != "" then TrailingS else LeadingS)
      && UpperChar(c) != 'I' && UpperChar(c) != 'R'
  {
    var c := s[0];
    assert Element(s, f, seenDigit) ==
      if IsS(c) then Some(Step(1, WithSign(f, seenDigit), seenDigit))
      else Some(Step(1, CharElement(c, f).value, seenDigit || Element09(c)));
    hide Element, Word;
    if !IsS(c) { CharStep(c, f); }
  }

  lemma CharStep(c: char, f: Format)
    requires CharElement(c, f).Some?
    ensures var g := CharElement(c, f).value;
      && (g.hasPoint <==> f.hasPoint || Point(c)) && g.currency == CurrencyAfter(c, f.currency) && g.sign == f.sign
      && UpperChar(c) != 'I' && UpperChar(c) != 'R'
  {}

  lemma Rejoined(read: string, s: string, n: nat)
    requires n <= |s|
    ensures (read + s[..n]) + s[n..] == read + s
  {
    assert s[..n] + s[n..] == s;
  }

  lemma ParseFromStep(s: string, f: Format, seenDigit: bool)
    requires s != [] && ParseFrom(s, f, seenDigit).Some?
    ensures Element(s, f, seenDigit).Some?
    ensures var e := Element(s, f, seenDigit).value;
      ParseFrom(s, f, seenDigit) == ParseFrom(s[e.length..], e.f, e.seenDigit)
  {
    hide Element;
  }

  lemma {:induction false} SignsFrom(read: string, s: string, f: Format, seenDigit: bool)
    requires Marked(read, s, f, seenDigit) && ParseFrom(s, f, seenDigit).Some?
    ensures var g := ParseFrom(s, f, seenDigit).value;
      g.sign == SignIn(read + s) && g.currency == CurrencyIn(read + s)
    decreases |s|
  {
    if s == [] {
      assert read + s == read;
    } else {
      ParseFromStep(s, f, seenDigit);
      hide *;
      FirstEffect(s, f, seenDigit);
      FirstUnit(s, f, seenDigit);
      var e, n := Element(s, f, seenDigit).value, First(s);
      if Word(s) { MarkedWord(read, s, f, seenDigit); } else { MarkedSingle(read, s, f, seenDigit); }
      Rejoined(read, s, n);
      SignsFrom(read + s[..n], s[n..], e.f, e.seenDigit);
    }
  }

  /** An accepted format has the sign and the currency its text asks for. */
  lemma ParseSigns(format: string)
    requires Parse(format).Some?
    ensures Parse(format).value.sign == SignIn(format) && Parse(format).value.currency == CurrencyIn(format)
  {
    assert "" + format == format;
    assert Marked("", format, NO_ELEMENTS, false);
    hide ParseFrom, Marked;
    SignsFrom("", format, NO_ELEMENTS, false);
  }
}

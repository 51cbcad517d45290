/**
 CAST(number AS STRING FORMAT '...'): reading the format elements, and printing a rational number
 with a fixed width aligned on the decimal point.
 */
module NumberFormat {
  import opened Sequences
  import opened Decimals
  import opened Ascii

  // ----- the format -----

  datatype Sign = Default | LeadingS | TrailingS | MI | PR

  /** intElems holds '0', '9' and ',' before the point; zeroFrom is its first '0', or -1. */
  datatype Format = Format(
    intElems: string, intDigits: nat, zeroFrom: int, fracDigits: nat, hasPoint: bool,
    sign: Sign, currency: string, fm: bool, blankZero: bool)

  const NO_ELEMENTS := Format("", 0, -1, 0, false, Default, "", false, false)

  /** In any case, the text starts with two letters. */
  predicate Starts(s: string, a: char, b: char) { 2 <= |s| && UpperChar(s[0]) == a && UpperChar(s[1]) == b }

  predicate Point(c: char) { c == '.' || c == 'D' || c == 'd' }

  predicate Separator(c: char) { c == ',' || c == 'G' || c == 'g' }

  predicate Element09(c: char) { c == '0' || c == '9' }

  /** One element: how much of the text it takes, the format with it, and whether a digit was seen. */
  datatype Step = Step(length: nat, f: Format, seenDigit: bool)

  function WithDigit(f: Format, c: char): Format {
    if f.hasPoint then f.(fracDigits := f.fracDigits + 1)
    else f.(zeroFrom := if c == '0' && f.zeroFrom < 0 then |f.intElems| else f.zeroFrom,
            intElems := f.intElems + [c], intDigits := f.intDigits + 1)
  }

  function WithSign(f: Format, seenDigit: bool): Format {
    f.(sign := if !seenDigit && !f.hasPoint && f.currency == "" then LeadingS else TrailingS)
  }

  predicate Currency(c: char) { c == '$' || c == 'L' || c == 'l' || c == 'C' || c == 'c' }

  function CurrencyText(c: char): string { if c == 'C' then "USD" else if c == 'c' then "usd" else "$" }

  function CharElement(c: char, f: Format): Option<Format> {
    if Element09(c) then Some(WithDigit(f, c))
    else if Point(c) then if f.hasPoint then None else Some(f.(hasPoint := true))
    else if Separator(c) then if f.hasPoint then None else Some(f.(intElems := f.intElems + [',']))
    else if Currency(c) then Some(f.(currency := CurrencyText(c)))
    else if c == 'B' || c == 'b' then Some(f.(blankZero := true))
    else None
  }

  /** MI and PR must be last. */
  function WordElement(s: string, f: Format): Option<Format> {
    if Starts(s, 'F', 'M') then Some(f.(fm := true))
    else if |s| != 2 then None
    else if Starts(s, 'M', 'I') then Some(f.(sign := MI))
    else Some(f.(sign := PR))
  }

  predicate Word(s: string) { Starts(s, 'F', 'M') || Starts(s, 'M', 'I') || Starts(s, 'P', 'R') }

  predicate Unsupported(s: string)
    requires s != []
  {
    || (4 <= |s| && Starts(s, 'E', 'E') && Starts(s[2..], 'E', 'E')) || Starts(s, 'R', 'N')
    || UpperChar(s[0]) == 'V' || UpperChar(s[0]) == 'X'
  }

  function Element(s: string, f: Format, seenDigit: bool): (r: Option<Step>)
    requires s != []
    ensures r.Some? ==> 0 < r.value.length <= |s|
  {
    if Word(s) then
      var g := WordElement(s, f);
      if g.None? then None else Some(Step(2, g.value, seenDigit))
    else if Unsupported(s) then None
    else if s[0] == 'S' || s[0] == 's' then Some(Step(1, WithSign(f, seenDigit), seenDigit))
    else
      var g := CharElement(s[0], f);
      if g.None? then None else Some(Step(1, g.value, seenDigit || Element09(s[0])))
  }

  function ParseFrom(s: string, f: Format, seenDigit: bool): Option<Format>
    decreases |s|
  {
    if s == [] then
      if f.intDigits == 0 && f.fracDigits == 0 then None else Some(f)
    else
      var e := Element(s, f, seenDigit);
      if e.None? then None else ParseFrom(s[e.value.length..], e.value.f, e.value.seenDigit)
  }

  function Parse(format: string): Option<Format> { ParseFrom(format, NO_ELEMENTS, false) }

  /** The elements read so far are in f; what remains decides the result. */
  ghost predicate Parsing(format: string, read: string, s: string, f: Format, seenDigit: bool) {
    read + s == format && ParseFrom(s, f, seenDigit) == Parse(format) && Elements(f) && Describes(read, f)
  }

  lemma ParsingStep(format: string, read: string, s: string, f: Format, seenDigit: bool)
    requires s != [] && Parsing(format, read, s, f, seenDigit)
    ensures var e := Element(s, f, seenDigit);
      if e.None? then Parse(format) == None
      else Parsing(format, read + s[..e.value.length], s[e.value.length..], e.value.f, e.value.seenDigit)
  {
    hide Element, ParseFrom, Elements, Describes;
    var e := Element(s, f, seenDigit);
    if e.Some? {
      ElementKeeps(read, s, f, seenDigit);
      SplitRead(read, s, e.value.length);
    } else {
      ElementStops(s, f, seenDigit);
    }
  }

  lemma SplitRead(read: string, s: string, n: nat)
    requires n <= |s|
    ensures (read + s[..n]) + s[n..] == read + s
  {}

  lemma ElementStops(s: string, f: Format, seenDigit: bool)
    requires s != [] && Element(s, f, seenDigit).None?
    ensures ParseFrom(s, f, seenDigit) == None
  {}

  lemma ParsingDone(format: string, read: string, s: string, f: Format, seenDigit: bool)
    requires s == [] && Parsing(format, read, s, f, seenDigit)
    ensures Parse(format) == if f.intDigits == 0 && f.fracDigits == 0 then None else Some(f)
    ensures Elements(f) && Describes(format, f)
  {
    assert read == format;
  }

  lemma ParsingStart(format: string)
    ensures Parsing(format, "", format, NO_ELEMENTS, false)
  {}

  method ParseNumberFormat(format: string) returns (r: Option<Format>)
    ensures r == Parse(format)
    ensures r.Some? ==> WellFormed(r.value) && Describes(format, r.value)
  {
    var f := ReadElements(format);
    if f.None? || (f.value.intDigits == 0 && f.value.fracDigits == 0) { return None; }
    return f;
  }

  method ReadElements(format: string) returns (r: Option<Format>)
    ensures r.None? ==> Parse(format) == None
    ensures r.Some? ==> Elements(r.value) && Describes(format, r.value)
    ensures r.Some? ==> Parse(format) == if r.value.intDigits == 0 && r.value.fracDigits == 0 then None else r
  {
    hide *;
    r := Some(NO_ELEMENTS);
    var s, seenDigit := format, false;
    ghost var read := "";
    ParsingStart(format);
    while |s| > 0
      invariant r.Some? && Parsing(format, read, s, r.value, seenDigit)
      decreases |s|
    {
      ParsingStep(format, read, s, r.value, seenDigit);
      var e := Element(s, r.value, seenDigit);
      if e.None? { return None; }
      read := read + s[..e.value.length];
      s := s[e.value.length..];
      r, seenDigit := Some(e.value.f), e.value.seenDigit;
    }
    ParsingDone(format, read, s, r.value, seenDigit);
  }

  // ----- what a format says -----

  predicate HasPoint(s: string) { exists i :: 0 <= i < |s| && Point(s[i]) }

  function IntElement(c: char): string {
    if Element09(c) then [c] else if Separator(c) then "," else ""
  }

  /** The digits and group separators before the point. */
  function IntPart(s: string): string {
    if s == [] then ""
    else IntPart(s[..|s| - 1]) + if HasPoint(s[..|s| - 1]) then "" else IntElement(s[|s| - 1])
  }

  /** The number of digits after the point. */
  function FracCount(s: string): nat {
    if s == [] then 0
    else FracCount(s[..|s| - 1]) + if HasPoint(s[..|s| - 1]) && Element09(s[|s| - 1]) then 1 else 0
  }

  predicate Has(s: string, a: char, b: char) { exists i :: 0 <= i < |s| && (s[i] == a || s[i] == b) }

  /** The parts of a format that do not depend on the order of its elements. */
  predicate Describes(s: string, f: Format) {
    && f.intElems == IntPart(s) && f.fracDigits == FracCount(s)
    && f.hasPoint == HasPoint(s) && f.fm == Has(s, 'F', 'f') && f.blankZero == Has(s, 'B', 'b')
  }

  function CountDigits(elems: string): nat {
    if elems == [] then 0 else CountDigits(elems[..|elems| - 1]) + if Element09(elems[|elems| - 1]) then 1 else 0
  }

  predicate FirstZero(elems: string, k: int) {
    if k < 0 then k == -1 && '0' !in elems
    else k < |elems| && elems[k] == '0' && '0' !in elems[..k]
  }

  predicate Elements(f: Format) {
    && (forall i :: 0 <= i < |f.intElems| ==> (Element09(f.intElems[i]) || f.intElems[i] == ','))
    && f.intDigits == CountDigits(f.intElems) && FirstZero(f.intElems, f.zeroFrom)
    && (f.fracDigits > 0 ==> f.hasPoint)
    && (f.currency == "" || f.currency == "$" || f.currency == "USD" || f.currency == "usd")
  }

  predicate WellFormed(f: Format) { Elements(f) && f.intDigits + f.fracDigits > 0 }

  lemma DescribeSnoc(s: string, c: char)
    ensures HasPoint(s + [c]) == (HasPoint(s) || Point(c))
    ensures IntPart(s + [c]) == IntPart(s) + if HasPoint(s) then "" else IntElement(c)
    ensures FracCount(s + [c]) == FracCount(s) + if HasPoint(s) && Element09(c) then 1 else 0
  {
    assert (s + [c])[..|s|] == s;
    assert forall i :: 0 <= i < |s| ==> (s + [c])[i] == s[i];
    assert (s + [c])[|s|] == c;
  }

  lemma HasSnoc(s: string, c: char, a: char, b: char)
    ensures Has(s + [c], a, b) == (Has(s, a, b) || c == a || c == b)
  {
    assert forall i :: 0 <= i < |s| ==> (s + [c])[i] == s[i];
    assert (s + [c])[|s|] == c;
  }

  /** A character that is none of the described elements. */
  predicate Other(c: char) {
    !Point(c) && !Element09(c) && !Separator(c) && c != 'F' && c != 'f' && c != 'B' && c != 'b'
  }

  lemma DescribesOther(s: string, f: Format, c: char)
    requires Describes(s, f) && Other(c)
    ensures Describes(s + [c], f)
  {
    DescribeSnoc(s, c);
    HasSnoc(s, c, 'F', 'f');
    HasSnoc(s, c, 'B', 'b');
    hide IntPart, FracCount, HasPoint, Has;
    assert IntElement(c) == "";
    assert IntPart(s) + "" == IntPart(s);
  }

  lemma DescribesSame(s: string, f: Format, g: Format)
    requires Describes(s, f) && g.intElems == f.intElems && g.fracDigits == f.fracDigits
    requires g.hasPoint == f.hasPoint && g.fm == f.fm && g.blankZero == f.blankZero
    ensures Describes(s, g)
  {
    hide IntPart, FracCount, HasPoint, Has;
  }

  lemma DescribesDigit(s: string, f: Format, c: char)
    requires Describes(s, f) && Element09(c)
    ensures Describes(s + [c], WithDigit(f, c))
  {
    DescribeSnoc(s, c);
    HasSnoc(s, c, 'F', 'f');
    HasSnoc(s, c, 'B', 'b');
    hide IntPart, FracCount, HasPoint, Has;
    assert IntPart(s) + "" == IntPart(s);
  }

  lemma DescribesMark(s: string, f: Format, c: char)
    requires Describes(s, f) && !f.hasPoint && (Point(c) || Separator(c))
    ensures Describes(s + [c], if Point(c) then f.(hasPoint := true) else f.(intElems := f.intElems + [',']))
  {
    DescribeSnoc(s, c);
    HasSnoc(s, c, 'F', 'f');
    HasSnoc(s, c, 'B', 'b');
    hide IntPart, FracCount, HasPoint, Has;
    assert IntPart(s) + "" == IntPart(s);
  }

  lemma DescribesBlank(s: string, f: Format, c: char)
    requires Describes(s, f) && (c == 'B' || c == 'b')
    ensures Describes(s + [c], f.(blankZero := true))
  {
    DescribeSnoc(s, c);
    HasSnoc(s, c, 'F', 'f');
    HasSnoc(s, c, 'B', 'b');
    hide IntPart, FracCount, HasPoint, Has;
    assert IntPart(s) + "" == IntPart(s);
  }

  lemma DescribesChar(s: string, f: Format, c: char)
    requires Describes(s, f) && CharElement(c, f).Some?
    ensures Describes(s + [c], CharElement(c, f).value)
  {
    hide Describes, WithDigit;
    if Element09(c) {
      DescribesDigit(s, f, c);
    } else if Point(c) || Separator(c) {
      DescribesMark(s, f, c);
    } else if c == 'B' || c == 'b' {
      DescribesBlank(s, f, c);
    } else {
      DescribesOther(s, f, c);
      DescribesSame(s + [c], f, CharElement(c, f).value);
    }
  }

  lemma DescribesWord(s: string, f: Format, a: char, b: char, g: Format)
    requires Describes(s, f) && Other(b)
    requires (Other(a) && g.fm == f.fm) || ((a == 'F' || a == 'f') && g.fm)
    requires g.intElems == f.intElems && g.fracDigits == f.fracDigits && g.hasPoint == f.hasPoint
    requires g.blankZero == f.blankZero
    ensures Describes(s + [a, b], g)
  {
    if Other(a) {
      DescribesOther(s, f, a);
      DescribesSame(s + [a], f, g);
    } else {
      DescribeSnoc(s, a);
      HasSnoc(s, a, 'F', 'f');
      HasSnoc(s, a, 'B', 'b');
      assert IntElement(a) == "";
      assert IntPart(s) + "" == IntPart(s);
    }
    hide Describes;
    DescribesOther(s + [a], g, b);
    assert (s + [a]) + [b] == s + [a, b];
  }

  lemma ElementDescribes(read: string, s: string, f: Format, seenDigit: bool)
    requires s != [] && Describes(read, f) && Element(s, f, seenDigit).Some?
    ensures var e := Element(s, f, seenDigit).value; Describes(read + s[..e.length], e.f)
  {
    var e := Element(s, f, seenDigit).value;
    hide Describes, CharElement, Unsupported;
    if Word(s) {
      assert s[..2] == [s[0], s[1]];
      DescribesWord(read, f, s[0], s[1], e.f);
    } else {
      assert s[..1] == [s[0]];
      if s[0] == 'S' || s[0] == 's' {
        DescribesOther(read, f, s[0]);
        DescribesSame(read + [s[0]], f, e.f);
      } else {
        DescribesChar(read, f, s[0]);
      }
    }
  }

  lemma AppendElement(elems: string, k: int, c: char)
    requires FirstZero(elems, k)
    ensures CountDigits(elems + [c]) == CountDigits(elems) + if Element09(c) then 1 else 0
    ensures FirstZero(elems + [c], if c == '0' && k < 0 then |elems| else k)
  {
    assert (elems + [c])[..|elems|] == elems;
    if k >= 0 { assert (elems + [c])[..k] == elems[..k]; }
  }

  lemma DigitElements(f: Format, c: char)
    requires Elements(f) && Element09(c)
    ensures Elements(WithDigit(f, c))
  {
    hide CountDigits, FirstZero, Element09;
    if !f.hasPoint {
      AppendElement(f.intElems, f.zeroFrom, c);
      AppendEach(f.intElems, c);
    }
  }

  lemma AppendEach(elems: string, c: char)
    requires Element09(c) || c == ','
    requires forall i :: 0 <= i < |elems| ==> (Element09(elems[i]) || elems[i] == ',')
    ensures forall i :: 0 <= i < |elems + [c]| ==> (Element09((elems + [c])[i]) || (elems + [c])[i] == ',')
  {
    hide Element09;
  }

  lemma SeparatorElements(f: Format)
    requires Elements(f)
    ensures Elements(f.(intElems := f.intElems + [',']))
  {
    AppendElement(f.intElems, f.zeroFrom, ',');
    hide CountDigits, FirstZero;
  }

  lemma ElementsSame(f: Format, g: Format)
    requires Elements(f) && g.intElems == f.intElems && g.intDigits == f.intDigits && g.zeroFrom == f.zeroFrom
    requires g.fracDigits == f.fracDigits && (f.hasPoint ==> g.hasPoint)
    requires g.currency == f.currency || g.currency == "$" || g.currency == "USD" || g.currency == "usd"
    ensures Elements(g)
  {
    hide CountDigits, FirstZero;
  }

  lemma CharElements(c: char, f: Format)
    requires Elements(f) && CharElement(c, f).Some?
    ensures Elements(CharElement(c, f).value)
  {
    var g := CharElement(c, f).value;
    hide Elements, WithDigit;
    if Element09(c) {
      DigitElements(f, c);
    } else if Separator(c) {
      SeparatorElements(f);
    } else {
      ElementsSame(f, g);
    }
  }

  lemma ElementElements(s: string, f: Format, seenDigit: bool)
    requires s != [] && Elements(f) && Element(s, f, seenDigit).Some?
    ensures Elements(Element(s, f, seenDigit).value.f)
  {
    var g := Element(s, f, seenDigit).value.f;
    hide Elements, Unsupported, Starts, CharElement;
    if Word(s) || s[0] == 'S' || s[0] == 's' {
      ElementsSame(f, g);
    } else {
      CharElements(s[0], f);
    }
  }

  lemma ElementKeeps(read: string, s: string, f: Format, seenDigit: bool)
    requires s != [] && Elements(f) && Describes(read, f) && Element(s, f, seenDigit).Some?
    ensures var e := Element(s, f, seenDigit).value; Elements(e.f) && Describes(read + s[..e.length], e.f)
    ensures var e := Element(s, f, seenDigit).value;
      ParseFrom(s, f, seenDigit) == ParseFrom(s[e.length..], e.f, e.seenDigit)
  {
    ElementElements(s, f, seenDigit);
    ElementDescribes(read, s, f, seenDigit);
  }
}

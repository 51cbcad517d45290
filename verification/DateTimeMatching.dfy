/** Which element a format starts with: the one with the longest name, as the order in which they are tried gives it. */
module DateTimeMatching {
  import opened Sequences
  import opened Decimals
  import opened Ascii
  import opened DateTimeElements

  /** The elements in groups, tried one group after the other. */
  function Tried(k: nat): seq<Element> {
    match k
    case 0 => [YCommaYYY] case 1 => LONG_ELEMENTS case 2 => FRACTION_ELEMENTS case 3 => ZONE_ELEMENTS
    case 4 => TRIPLE_ELEMENTS case 5 => PAIR_ELEMENTS
    case _ => SINGLE_ELEMENTS
  }

  function TriedFrom(k: nat): seq<Element>
    decreases 7 - k
  {
    if k >= 7 then [] else Tried(k) + TriedFrom(k + 1)
  }

  function Group(e: Element): nat {
    match e
    case YCommaYYY => 0
    case ADotM | PDotM | HH24 | HH12 | MONTH | YYYY | RRRR => 1
    case FF(_) => 2
    case SSSSS | TZH | TZM => 3
    case YYY | MON | DDD | DAY => 4
    case Y | D | Q => 6
    case _ => 5
  }

  lemma AllTried()
    ensures TriedFrom(0) == PARSE_ELEMENTS && TriedFrom(1) == PRINT_ELEMENTS
  {
    var a, b, c, d, e, f := LONG_ELEMENTS, FRACTION_ELEMENTS, ZONE_ELEMENTS, TRIPLE_ELEMENTS, PAIR_ELEMENTS,
      SINGLE_ELEMENTS;
    assert TriedFrom(6) == f + [] == f && TriedFrom(5) == e + f && TriedFrom(4) == d + (e + f);
    assert TriedFrom(3) == c + (d + (e + f)) && TriedFrom(2) == b + (c + (d + (e + f)));
    hide LONG_ELEMENTS, FRACTION_ELEMENTS, ZONE_ELEMENTS, TRIPLE_ELEMENTS, PAIR_ELEMENTS, SINGLE_ELEMENTS;
    assert TriedFrom(1) == a + (b + (c + (d + (e + f)))) == PRINT_ELEMENTS;
  }

  lemma TriedGroup(k: nat, e: Element)
    requires k < 7 && e in Tried(k)
    ensures Group(e) == k
  {
    LongGroup(e);
    FractionGroup(e);
    PairGroup(e);
    hide LONG_ELEMENTS, FRACTION_ELEMENTS, PAIR_ELEMENTS;
  }

  lemma LongGroup(e: Element)
    ensures e in LONG_ELEMENTS <==> Group(e) == 1
  {
    assert LONG_ELEMENTS == [ADotM, PDotM, HH24, HH12, MONTH, YYYY, RRRR];
  }

  lemma FractionGroup(e: Element)
    ensures e in FRACTION_ELEMENTS <==> Group(e) == 2
  {
    assert FRACTION_ELEMENTS == [FF(1), FF(2), FF(3), FF(4), FF(5), FF(6), FF(7), FF(8), FF(9)];
  }

  lemma PairGroup(e: Element)
    ensures e in PAIR_ELEMENTS <==> Group(e) == 5
  {
    assert PAIR_ELEMENTS == [RR, YY, MM, DD, DY, HH, MI, SS, AM, PM];
  }

  lemma GroupTried(e: Element)
    ensures Group(e) < 7 && e in Tried(Group(e))
  {
    LongGroup(e);
    FractionGroup(e);
    PairGroup(e);
    hide LONG_ELEMENTS, FRACTION_ELEMENTS, PAIR_ELEMENTS;
    assert ZONE_ELEMENTS == [SSSSS, TZH, TZM] && TRIPLE_ELEMENTS == [YYY, MON, DDD, DAY];
  }

  lemma {:induction false} TriedAny(j: nat, k: nat, e: Element)
    requires j <= k < 7 && e in Tried(k)
    ensures e in TriedFrom(j)
    decreases k - j
  {
    hide Tried;
    if j < k { TriedAny(j + 1, k, e); }
  }

  /** Every element is tried when parsing, and every one but Y,YYY when printing. */
  lemma AllListed(e: Element)
    ensures e in TriedFrom(0) && (!e.YCommaYYY? <==> e in TriedFrom(1))
  {
    hide Tried, TriedFrom;
    GroupTried(e);
    TriedAny(0, Group(e), e);
    if !e.YCommaYYY? { TriedAny(1, Group(e), e); }
    if e in TriedFrom(1) { LaterGroup(1, e); }
  }

  lemma {:induction false} LaterGroup(k: nat, e: Element)
    requires e in TriedFrom(k)
    ensures k <= Group(e)
    decreases 7 - k
  {
    hide Tried, Group;
    if k < 7 { if e in Tried(k) { TriedGroup(k, e); } else { LaterGroup(k + 1, e); } }
  }

  lemma {:induction false} MatchConcat(a: seq<Element>, b: seq<Element>, s: string)
    ensures FirstMatch(a + b, s) == if FirstMatch(a, s).Some? then FirstMatch(a, s) else FirstMatch(b, s)
    decreases |a|
  {
    hide StartsWith, Name;
    if a == [] {
      assert a + b == b;
    } else {
      assert (a + b)[1..] == a[1..] + b;
      MatchConcat(a[1..], b, s);
    }
  }

  lemma {:induction false} SomeMatch(elements: seq<Element>, s: string)
    ensures FirstMatch(elements, s).Some? ==> FirstMatch(elements, s).value in elements
    ensures FirstMatch(elements, s).None? ==> forall e :: e in elements ==> !StartsWith(s, Name(e))
    decreases |elements|
  {
    hide StartsWith, Name;
    if elements != [] {
      SomeMatch(elements[1..], s);
      assert forall e :: e in elements <==> e == elements[0] || e in elements[1..];
    }
  }

  /** The element found is not of a later group than one the text starts with. */
  lemma {:induction false} FoundBy(k: nat, s: string, e: Element) returns (d: Element)
    requires e in TriedFrom(k) && StartsWith(s, Name(e))
    ensures FirstMatch(TriedFrom(k), s) == Some(d) && Group(d) <= Group(e) && StartsWith(s, Name(d))
    decreases 7 - k
  {
    hide StartsWith, Name, Group, Tried, FirstMatch;
    LaterGroup(k, e);
    MatchConcat(Tried(k), TriedFrom(k + 1), s);
    SomeMatch(Tried(k), s);
    if FirstMatch(Tried(k), s).Some? {
      d := FirstMatch(Tried(k), s).value;
      TriedGroup(k, d);
    } else {
      d := FoundBy(k + 1, s, e);
    }
  }

  lemma StartsAt(s: string, word: string, i: nat)
    requires StartsWith(s, word) && i < |word|
    ensures i < |s| && LowerChar(s[i]) == LowerChar(word[i])
  {
    assert s[..|word|][i] == s[i];
  }

  /** The letter of a name at a place; a blank beyond its end. */
  function LetterAt(e: Element, i: nat): char { if i < |Name(e)| then LowerChar(Name(e)[i]) else ' ' }

  /** The names have the same letters up to a length. */
  predicate Agree(d: Element, e: Element, n: nat) {
    && (n > 0 ==> LetterAt(d, 0) == LetterAt(e, 0)) && (n > 1 ==> LetterAt(d, 1) == LetterAt(e, 1))
    && (n > 2 ==> LetterAt(d, 2) == LetterAt(e, 2)) && (n > 3 ==> LetterAt(d, 3) == LetterAt(e, 3))
    && (n > 4 ==> LetterAt(d, 4) == LetterAt(e, 4))
  }

  lemma BothStart(s: string, d: Element, e: Element)
    requires StartsWith(s, Name(d)) && StartsWith(s, Name(e)) && |Name(e)| <= |Name(d)| <= 5
    ensures Agree(d, e, |Name(e)|)
  {
    var n := |Name(e)|;
    forall i | 0 <= i < n ensures LetterAt(d, i) == LetterAt(e, i) {
      StartsAt(s, Name(d), i);
      StartsAt(s, Name(e), i);
    }
  }

  lemma ShortNames(e: Element)
    ensures 1 <= |Name(e)| <= 5
  {}

  /** The element whose name has this length and these first letters, if there is one. */
  function Named(n: nat, a: char, b: char, c: char): Element {
    match a
    case 'y' =>
      if b == ',' then YCommaYYY
      else if n == 4 then YYYY else if n == 3 then YYY else if n == 2 then YY else Y
    case 'r' => if n == 4 then RRRR else RR
    case 'm' => if n == 5 then MONTH else if n == 3 then MON else if b == 'm' then MM else MI
    case 'd' =>
      if n == 1 then D
      else if b == 'd' then (if n == 3 then DDD else DD)
      else if b == 'a' then DAY else DY
    case 'h' => if n == 2 then HH else if c == '1' then HH12 else HH24
    case 's' => if n == 2 then SS else SSSSS
    case 'a' => if n == 2 then AM else ADotM
    case 'p' => if n == 2 then PM else PDotM
    case 'f' => if '1' <= c <= '9' then FF(c as int - '0' as int) else FF(1)
    case 't' => if c == 'h' then TZH else TZM
    case _ => Q
  }

  lemma NamedYear(e: Element)
    requires e.YYYY? || e.RRRR? || e.YYY? || e.YY? || e.Y? || e.YCommaYYY? || e.RR?
    ensures Named(|Name(e)|, LetterAt(e, 0), LetterAt(e, 1), LetterAt(e, 2)) == e
  {}

  lemma NamedDay(e: Element)
    requires e.MM? || e.MON? || e.MONTH? || e.DD? || e.DDD? || e.DAY? || e.DY? || e.D? || e.Q?
    ensures Named(|Name(e)|, LetterAt(e, 0), LetterAt(e, 1), LetterAt(e, 2)) == e
  {}

  lemma NamedTime(e: Element)
    requires e.HH? || e.HH12? || e.HH24? || e.MI? || e.SS? || e.SSSSS? || e.FF? || e.TZH? || e.TZM?
    ensures Named(|Name(e)|, LetterAt(e, 0), LetterAt(e, 1), LetterAt(e, 2)) == e
  {}

  lemma NamedHalf(e: Element)
    requires e.AM? || e.PM? || e.ADotM? || e.PDotM?
    ensures Named(|Name(e)|, LetterAt(e, 0), LetterAt(e, 1), LetterAt(e, 2)) == e
  {}

  lemma NamedIs(e: Element)
    ensures Named(|Name(e)|, LetterAt(e, 0), LetterAt(e, 1), LetterAt(e, 2)) == e
  {
    hide Name, LetterAt, Named;
    match e
    case YYYY | RRRR | YYY | YY | Y | YCommaYYY | RR => NamedYear(e);
    case MM | MON | MONTH | DD | DDD | DAY | DY | D | Q => NamedDay(e);
    case AM | PM | ADotM | PDotM => NamedHalf(e);
    case _ => NamedTime(e);
  }

  function Cut(d: Element, i: nat, n: nat): char { if i < n then LetterAt(d, i) else ' ' }

  lemma SpelledBy(d: Element, e: Element)
    requires |Name(e)| <= |Name(d)| && Agree(d, e, |Name(e)|)
    ensures var n := |Name(e)|; Named(n, Cut(d, 0, n), Cut(d, 1, n), Cut(d, 2, n)) == e
  {
    hide Name, Named;
    NamedIs(e);
  }

  lemma PrefixGroup(d: Element, n: nat, e: Element)
    requires 0 < n < |Name(d)| && Named(n, Cut(d, 0, n), Cut(d, 1, n), Cut(d, 2, n)) == e && |Name(e)| == n
    requires n > 1 ==> LetterAt(e, 1) == LetterAt(d, 1)
    ensures Group(d) < Group(e)
  {}

  /** An element whose name goes on where another's ends is tried before it. */
  lemma LongerFirst(d: Element, e: Element)
    requires |Name(e)| < |Name(d)| && Agree(d, e, |Name(e)|)
    ensures Group(d) < Group(e)
  {
    hide Name, Named, LetterAt, Group;
    SpelledBy(d, e);
    PrefixGroup(d, |Name(e)|, e);
  }

  /** No two elements have the same name. */
  lemma NamesDiffer(d: Element, e: Element)
    requires |Name(e)| == |Name(d)| && Agree(d, e, |Name(e)|)
    ensures d == e
  {
    hide Name, Named, Agree;
    SpelledBy(d, e);
    NamedIs(d);
  }

  /** An element that is tried, and starts the text. */
  predicate Starts(s: string, e: Element, parsing: bool) { (parsing || !e.YCommaYYY?) && StartsWith(s, Name(e)) }

  lemma FoundLongest(s: string, e: Element, d: Element, parsing: bool)
    requires FirstMatch(if parsing then PARSE_ELEMENTS else PRINT_ELEMENTS, s) == Some(e) && Starts(s, d, parsing)
    ensures Starts(s, e, parsing) && |Name(d)| <= |Name(e)|
  {
    AllTried();
    hide PARSE_ELEMENTS, PRINT_ELEMENTS, TriedFrom, Tried, FirstMatch, Name, Group, StartsWith;
    AllListed(d);
    AllListed(e);
    ShortNames(d);
    SomeMatch(if parsing then PARSE_ELEMENTS else PRINT_ELEMENTS, s);
    var k := if parsing then 0 else 1;
    var f := FoundBy(k, s, d);
    if |Name(d)| > |Name(e)| {
      BothStart(s, d, e);
      LongerFirst(d, e);
    }
  }

  /** The element found is the one with the longest name among those the text starts with. */
  lemma LongestMatch(s: string, e: Element, parsing: bool)
    ensures FirstMatch(if parsing then PARSE_ELEMENTS else PRINT_ELEMENTS, s) == Some(e) <==>
      (Starts(s, e, parsing) && forall d: Element :: Starts(s, d, parsing) ==> |Name(d)| <= |Name(e)|)
  {
    var elements := if parsing then PARSE_ELEMENTS else PRINT_ELEMENTS;
    AllTried();
    hide PARSE_ELEMENTS, PRINT_ELEMENTS, TriedFrom, Tried, FirstMatch, Name, Group, StartsWith, Agree;
    SomeMatch(elements, s);
    if FirstMatch(elements, s) == Some(e) {
      AllListed(e);
      forall d: Element | Starts(s, d, parsing) ensures |Name(d)| <= |Name(e)| { FoundLongest(s, e, d, parsing); }
    } else if Starts(s, e, parsing) && forall d: Element :: Starts(s, d, parsing) ==> |Name(d)| <= |Name(e)| {
      AllListed(e);
      var f := FoundBy(if parsing then 0 else 1, s, e);
      FoundLongest(s, f, e, parsing);
      ShortNames(f);
      BothStart(s, f, e);
      NamesDiffer(f, e);
    }
  }

  /** An element spelled in any case, and nothing else, is found. */
  lemma FoundWhole(f: string, e: Element, parsing: bool)
    requires SameLetters(f, Name(e)) && (parsing || !e.YCommaYYY?)
    ensures FirstMatch(if parsing then PARSE_ELEMENTS else PRINT_ELEMENTS, f) == Some(e)
  {
    assert f[..|Name(e)|] == f;
    hide FirstMatch, PARSE_ELEMENTS, PRINT_ELEMENTS, Name;
    LongestMatch(f, e, parsing);
  }
}

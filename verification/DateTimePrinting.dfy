/** CAST(DATE, DATETIME, TIME or TIMESTAMP AS STRING FORMAT '...'). */
module DateTimePrinting {
  import opened Sequences
  import opened Decimals
  import opened DateTimeElements

  datatype Type = DATE | DATETIME | TIME | TIMESTAMP

  predicate IsZone(e: Element) { e.TZH? || e.TZM? }

  predicate IsTime(e: Element) {
    e.HH? || e.HH12? || e.HH24? || e.MI? || e.SS? || e.SSSSS? || e.AM? || e.PM? || e.ADotM? || e.PDotM? || e.FF?
  }

  /** Elements the type has parts for. */
  predicate Supports(t: Type, e: Element) {
    match t
    case DATE => !IsTime(e) && !IsZone(e)
    case DATETIME => !IsZone(e)
    case TIME => IsTime(e)
    case TIMESTAMP => true
  }

  predicate Punctuation(c: char) { c == '-' || c == '/' || c == ',' || c == '.' || c == ';' || c == ':' }

  function IndexOf(s: string, c: char): (r: Option<nat>)
    ensures r.Some? ==> r.value < |s| && s[r.value] == c && c !in s[..r.value]
    ensures r.None? ==> c !in s
  {
    if s == [] then None
    else if s[0] == c then Some(0)
    else
      var r := IndexOf(s[1..], c);
      assert r.Some? ==> s[..r.value + 1] == [s[0]] + s[1..][..r.value];
      if r.None? then None else Some(r.value + 1)
  }

  /** The text of the first part of a format and how much of the format it takes. */
  datatype Piece = Piece(text: string, length: nat)

  function FirstPiece(format: string, m: Moment, t: Type): (r: Option<Piece>)
    requires format != [] && ValidMoment(m)
    ensures r.Some? ==> 0 < r.value.length <= |format|
  {
    var c := format[0];
    if c == '"' then
      var end := IndexOf(format[1..], '"');
      if end.None? then None else Some(Piece(format[1..1 + end.value], end.value + 2))
    else if c == ' ' || Punctuation(c) then Some(Piece([c], 1))
    else
      var e := FirstMatch(PRINT_ELEMENTS, format);
      if e.None? || !Supports(t, e.value) then None
      else
        var n := |Name(e.value)|;
        Some(Piece(Render(e.value, format[..n], m), n))
  }

  function Print(format: string, m: Moment, t: Type): Option<string>
    requires ValidMoment(m)
    decreases |format|
  {
    if format == [] then Some("")
    else
      var p := FirstPiece(format, m, t);
      if p.None? then None else Prepend(p.value.text, Print(format[p.value.length..], m, t))
  }

  function Prepend(s: string, r: Option<string>): Option<string> {
    if r.None? then None else Some(s + r.value)
  }

  lemma PrependTwice(s: string, t: string, r: Option<string>)
    ensures Prepend(s, Prepend(t, r)) == Prepend(s + t, r)
  {
    if r.Some? { assert s + (t + r.value) == (s + t) + r.value; }
  }

  lemma PrintStep(format: string, i: nat, m: Moment, t: Type, out: string)
    requires ValidMoment(m) && i < |format|
    ensures var p := FirstPiece(format[i..], m, t);
      Prepend(out, Print(format[i..], m, t))
      == if p.None? then None else Prepend(out + p.value.text, Print(format[i + p.value.length..], m, t))
  {
    var p := FirstPiece(format[i..], m, t);
    if p.Some? {
      assert format[i..][p.value.length..] == format[i + p.value.length..];
      PrependTwice(out, p.value.text, Print(format[i + p.value.length..], m, t));
    }
  }

  method FormatDateTimeElements(m: Moment, format: string, t: Type) returns (r: Option<string>)
    requires ValidMoment(m)
    ensures r == Print(format, m, t)
  {
    hide *;
    r := Some("");
    var i: nat := 0;
    PrintStart(format, m, t);
    while i < |format|
      invariant i <= |format| && r.Some? && Print(format, m, t) == Prepend(r.value, Print(format[i..], m, t))
    {
      PrintStep(format, i, m, t, r.value);
      var p := FirstPiece(format[i..], m, t);
      if p.None? { return None; }
      r := Some(r.value + p.value.text);
      i := i + p.value.length;
    }
    PrintEnd(format[i..], m, t, r.value);
  }

  lemma PrintStart(format: string, m: Moment, t: Type)
    requires ValidMoment(m)
    ensures Print(format, m, t) == Prepend("", Print(format[0..], m, t))
  {
    hide FirstPiece;
    assert format[0..] == format;
    if Print(format, m, t).Some? { assert "" + Print(format, m, t).value == Print(format, m, t).value; }
  }

  lemma PrintEnd(format: string, m: Moment, t: Type, out: string)
    requires ValidMoment(m) && format == []
    ensures Prepend(out, Print(format, m, t)) == Some(out)
  {
    assert out + "" == out;
  }
}

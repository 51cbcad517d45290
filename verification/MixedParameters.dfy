/**
 Queries that mix positional `?` with named `@name` parameters: every `?` outside quoted text becomes
 `@gsl_pos_1`, `@gsl_pos_2`, ... and the arguments without a name get those names in order.
 Bytes are modelled as characters.
 */
module MixedParameters {
  import opened Ascii
  import opened Decimals
  import opened Sequences

  // ----- quoted text -----

  predicate Quote(c: char) { c == '\'' || c == '"' }

  /** Where a literal quoted by q ends, read from i. */
  function LiteralEnd(s: string, i: nat, q: char, triple: bool): (e: nat)
    requires i <= |s|
    ensures i <= e <= |s|
    ensures triple && e < |s| ==> i + 3 <= e
    decreases |s| - i
  {
    if i == |s| then i
    else if s[i] == '\\' && i + 1 < |s| then LiteralEnd(s, i + 2, q, triple)
    else if triple then
      if s[i] == q && i + 2 < |s| && s[i + 1] == q && s[i + 2] == q then i + 3
      else LiteralEnd(s, i + 1, q, triple)
    else if s[i] == q then i + 1
    else if s[i] == '\n' then i
    else LiteralEnd(s, i + 1, q, triple)
  }

  predicate Triple(s: string)
    requires s != []
  {
    2 < |s| && s[1] == s[0] && s[2] == s[0]
  }

  /** Where text in backticks ends, read from i. */
  function BacktickEnd(s: string, i: nat): (e: nat)
    requires i <= |s|
    ensures i <= e <= |s|
    decreases |s| - i
  {
    if i == |s| then i else if s[i] == '`' then i + 1 else BacktickEnd(s, i + 1)
  }

  /** The length of the first unit of a query: a literal, text in backticks or one character. */
  function Unit(s: string): (n: nat)
    requires s != []
    ensures 0 < n <= |s|
  {
    if Quote(s[0]) then LiteralEnd(s, if Triple(s) then 3 else 1, s[0], Triple(s))
    else if s[0] == '`' then BacktickEnd(s, 1)
    else 1
  }

  predicate Quoted(c: char) { Quote(c) || c == '`' }

  method ScanStringLiteral(s: string, start: nat) returns (end: nat)
    ensures start >= |s| ==> end == |s|
    ensures start < |s| ==> start < end <= |s|
    ensures start < |s| && s[start] != '`' ==> end == start + Unit(s[start..])
  {
    if start >= |s| { return |s|; }
    var q := s[start];
    if !Quote(q) { return start + 1; }
    var triple := start + 2 < |s| && s[start + 1] == q && s[start + 2] == q;
    var i := if triple then start + 3 else start + 1;
    ghost var t := s[start..];
    while i < |s|
      invariant start < i <= |s|
      invariant Unit(t) == LiteralEnd(t, i - start, q, triple)
    {
      if s[i] == '\\' && i + 1 < |s| {
        i := i + 2;
        continue;
      }
      if triple {
        if s[i] == q && i + 2 < |s| && s[i + 1] == q && s[i + 2] == q { return i + 3; }
        i := i + 1;
        continue;
      }
      if s[i] == q { return i + 1; }
      if s[i] == '\n' { return i; }
      i := i + 1;
    }
    return |s|;
  }

  // ----- parameters -----

  predicate IdentStart(c: char) { 'a' <= c <= 'z' || 'A' <= c <= 'Z' || c == '_' }

  predicate IdentCont(c: char) { IdentStart(c) || Digit(c) }

  const PREFIX: string := "gsl_pos_"

  function Name(k: nat): string { PREFIX + Decimal(k) }

  /** The query with its bare question marks renamed, k of them having been seen before. */
  function Rewrite(s: string, k: nat): string
    decreases |s|
  {
    if s == [] then []
    else if s[0] == '?' then "@" + Name(k + 1) + Rewrite(s[1..], k + 1)
    else s[..Unit(s)] + Rewrite(s[Unit(s)..], k)
  }

  function Marks(s: string): nat
    decreases |s|
  {
    if s == [] then 0 else (if s[0] == '?' then 1 else 0) + Marks(s[Unit(s)..])
  }

  /** Whether a unit starts at i: the position is outside quoted text. */
  predicate Bare(s: string, i: nat)
    decreases |s|
  {
    s != [] && (i == 0 || (i >= Unit(s) && Bare(s[Unit(s)..], i - Unit(s))))
  }

  predicate NamedRefAt(s: string, i: nat) {
    i + 1 < |s| && s[i] == '@' && IdentStart(s[i + 1])
  }

  ghost predicate HasNamedRef(s: string) {
    exists i: nat :: Bare(s, i) && NamedRefAt(s, i)
  }

  lemma HasNamedRefStep(s: string)
    requires s != []
    ensures HasNamedRef(s) <==> NamedRefAt(s, 0) || HasNamedRef(s[Unit(s)..])
  {
    var n := Unit(s);
    var t := s[n..];
    assert Bare(s, 0);
    if HasNamedRef(t) {
      var i: nat :| Bare(t, i) && NamedRefAt(t, i);
      assert Bare(s, i + n) && NamedRefAt(s, i + n);
    }
    if HasNamedRef(s) && !NamedRefAt(s, 0) {
      var i: nat :| Bare(s, i) && NamedRefAt(s, i);
      assert Bare(t, i - n) && NamedRefAt(t, i - n);
    }
  }

  lemma SuffixStep(s: string, i: nat, n: nat)
    requires i + n <= |s|
    ensures s[i..][n..] == s[i + n..] && s[i..][..n] == s[i..i + n]
  {}

  method ScanBackticks(s: string, start: nat) returns (end: nat)
    requires start < |s| && s[start] == '`'
    ensures end == start + Unit(s[start..])
  {
    end := start + 1;
    ghost var t := s[start..];
    while end < |s| && s[end] != '`'
      invariant start < end <= |s|
      invariant Unit(t) == BacktickEnd(t, end - start)
    {
      end := end + 1;
    }
    if end < |s| { end := end + 1; }
  }

  method QueryHasNamedRef(query: string) returns (r: bool)
    ensures r <==> HasNamedRef(query)
  {
    var i: nat := 0;
    assert query[0..] == query;
    while i < |query|
      invariant i <= |query|
      invariant HasNamedRef(query) <==> HasNamedRef(query[i..])
      decreases |query| - i
    {
      hide HasNamedRef, Unit;
      var c := query[i];
      HasNamedRefStep(query[i..]);
      SuffixStep(query, i, Unit(query[i..]));
      if Quote(c) {
        i := ScanStringLiteral(query, i);
        continue;
      }
      if c == '`' {
        i := ScanBackticks(query, i);
        continue;
      }
      if c == '@' && i + 1 < |query| && IdentStart(query[i + 1]) { return true; }
      PlainUnit(query[i..]);
      i := i + 1;
    }
    NoNamedRef();
    assert query[i..] == [];
    return false;
  }

  lemma NoNamedRef()
    ensures !HasNamedRef([])
  {}

  lemma PlainUnit(s: string)
    requires s != [] && !Quoted(s[0])
    ensures Unit(s) == 1
  {}

  // ----- arguments -----

  datatype NamedValue<V> = NamedValue(name: string, value: V)

  predicate HasNamed<V>(args: seq<NamedValue<V>>) {
    exists k :: 0 <= k < |args| && args[k].name != ""
  }

  predicate HasPositional<V>(args: seq<NamedValue<V>>) {
    exists k :: 0 <= k < |args| && args[k].name == ""
  }

  /** The number of arguments without a name among the first n. */
  function Unnamed<V>(args: seq<NamedValue<V>>, n: nat): nat
    requires n <= |args|
  {
    if n == 0 then 0 else Unnamed(args, n - 1) + if args[n - 1].name == "" then 1 else 0
  }

  /** Every argument keeps its place and value; the k-th without a name is given the k-th name. */
  ghost predicate Bound<V>(args: seq<NamedValue<V>>, bound: seq<NamedValue<V>>, n: nat) {
    && |bound| == |args| && n <= |args|
    && (forall k :: 0 <= k < n ==>
      bound[k] == if args[k].name == "" then args[k].(name := Name(Unnamed(args, k) + 1)) else args[k])
    && (forall k :: n <= k < |args| ==> bound[k] == args[k])
  }

  method BindArguments<V>(args: seq<NamedValue<V>>) returns (bound: seq<NamedValue<V>>)
    ensures Bound(args, bound, |args|)
  {
    bound := args;
    var named: nat := 0;
    for k := 0 to |bound|
      invariant |bound| == |args| && named == Unnamed(args, k) && Bound(args, bound, k)
    {
      hide Name;
      if bound[k].name != "" { continue; }
      named := named + 1;
      bound := bound[k := bound[k].(name := Name(named))];
    }
  }

  ghost predicate Fires<V>(query: string, args: seq<NamedValue<V>>) {
    && Marks(query) > 0
    && ((HasNamed(args) && HasPositional(args)) || (args == [] && HasNamedRef(query)))
  }

  /** b holds the first i characters rewritten, k of them bare question marks. */
  ghost predicate Renamed(query: string, i: nat, b: string, k: nat) {
    && i <= |query|
    && Rewrite(query, 0) == b + Rewrite(query[i..], k)
    && Marks(query) == k + Marks(query[i..])
  }

  lemma RenameUnit(query: string, i: nat, b: string, k: nat)
    requires i < |query| && Renamed(query, i, b, k) && query[i] != '?'
    ensures Renamed(query, i + Unit(query[i..]), b + query[i..i + Unit(query[i..])], k)
  {
    RewriteStep(query[i..], k);
    hide Rewrite, Unit, Marks;
    var n := Unit(query[i..]);
    SuffixStep(query, i, n);
    assert b + (query[i..i + n] + Rewrite(query[i + n..], k)) == (b + query[i..i + n]) + Rewrite(query[i + n..], k);
  }

  lemma RenameMark(query: string, i: nat, b: string, k: nat)
    requires i < |query| && Renamed(query, i, b, k) && query[i] == '?'
    ensures Renamed(query, i + 1, b + ("@" + Name(k + 1)), k + 1)
  {
    RewriteStep(query[i..], k);
    PlainUnit(query[i..]);
    hide Rewrite, Unit, Marks, Name;
    SuffixStep(query, i, 1);
    var w := "@" + Name(k + 1);
    assert b + (w + Rewrite(query[i + 1..], k + 1)) == (b + w) + Rewrite(query[i + 1..], k + 1);
  }

  lemma RenamedBounds(query: string, i: nat, b: string, k: nat)
    requires Renamed(query, i, b, k)
    ensures i <= |query|
    ensures i == |query| ==> b == Rewrite(query, 0) && k == Marks(query)
  {}

  lemma RenamedNothing(query: string)
    ensures Renamed(query, 0, "", 0)
  {
    assert query[0..] == query;
  }

  method RenameMarks(query: string) returns (b: string, posCount: nat)
    ensures b == Rewrite(query, 0) && posCount == Marks(query)
  {
    hide *;
    b, posCount := "", 0;
    var i: nat := 0;
    RenamedNothing(query);
    while i < |query|
      invariant i <= |query| && Renamed(query, i, b, posCount)
      decreases |query| - i
    {
      if query[i] == '?' {
        RenameMark(query, i, b, posCount);
        posCount := posCount + 1;
        b := b + ("@" + Name(posCount));
        i := i + 1;
      } else {
        RenameUnit(query, i, b, posCount);
        var end := UnitEnd(query, i);
        b := b + query[i..end];
        i := end;
      }
    }
    RenamedBounds(query, i, b, posCount);
  }

  /** Past the literal, the text in backticks or the single character at i. */
  method UnitEnd(query: string, i: nat) returns (end: nat)
    requires i < |query|
    ensures end == i + Unit(query[i..])
    ensures i < end <= |query|
  {
    if query[i] == '`' {
      end := ScanBackticks(query, i);
    } else {
      end := ScanStringLiteral(query, i);
    }
  }

  lemma RewriteStep(s: string, k: nat)
    requires s != []
    ensures s[0] == '?' ==> Rewrite(s, k) == ("@" + Name(k + 1)) + Rewrite(s[1..], k + 1)
    ensures s[0] != '?' ==> Rewrite(s, k) == s[..Unit(s)] + Rewrite(s[Unit(s)..], k)
    ensures Marks(s) == (if s[0] == '?' then 1 else 0) + Marks(s[Unit(s)..])
  {}

  lemma {:induction false} NoMark(s: string)
    requires '?' !in s
    ensures Marks(s) == 0
    decreases |s|
  {
    if s != [] { NoMark(s[Unit(s)..]); }
  }

  method ApplyMixedParameterRewrite<V>(query: string, args: seq<NamedValue<V>>)
    returns (newQuery: string, newArgs: seq<NamedValue<V>>)
    ensures !Fires(query, args) ==> newQuery == query && newArgs == args
    ensures Fires(query, args) ==> newQuery == Rewrite(query, 0) && Bound(args, newArgs, |args|)
  {
    newQuery, newArgs := query, args;
    if '?' !in query {
      NoMark(query);
      return;
    }
    var hasNamed, hasPositional := false, false;
    for k := 0 to |args|
      invariant hasNamed <==> HasNamed(args[..k])
      invariant hasPositional <==> HasPositional(args[..k])
    {
      AnyNext(args, k);
      if args[k].name == "" { hasPositional := true; } else { hasNamed := true; }
    }
    assert args[..|args|] == args;
    hide *;
    if !(hasNamed && hasPositional) {
      var named := QueryHasNamedRef(query);
      if |args| > 0 || !named {
        DoesNotFire(query, args);
        return;
      }
    }
    FiresIff(query, args);
    var b, posCount := RenameMarks(query);
    if posCount == 0 { return; }
    newQuery := b;
    newArgs := BindArguments(args);
  }

  lemma AnyNext<V>(args: seq<NamedValue<V>>, k: nat)
    requires k < |args|
    ensures HasNamed(args[..k + 1]) <==> HasNamed(args[..k]) || args[k].name != ""
    ensures HasPositional(args[..k + 1]) <==> HasPositional(args[..k]) || args[k].name == ""
  {
    var s, t := args[..k], args[..k + 1];
    assert forall j :: 0 <= j < k ==> t[j] == s[j];
    assert t[k] == args[k];
  }

  lemma DoesNotFire<V>(query: string, args: seq<NamedValue<V>>)
    requires !(HasNamed(args) && HasPositional(args)) && (|args| > 0 || !HasNamedRef(query))
    ensures !Fires(query, args)
  {}

  lemma FiresIff<V>(query: string, args: seq<NamedValue<V>>)
    requires (HasNamed(args) && HasPositional(args)) || (|args| == 0 && HasNamedRef(query))
    ensures Fires(query, args) <==> Marks(query) > 0
  {}

  // ----- what follows a unit does not move its end -----

  /** How many identifier characters a text starts with. */
  function IdentRun(s: string): (n: nat)
    ensures n <= |s| && (forall i :: 0 <= i < n ==> IdentCont(s[i])) && (n < |s| ==> !IdentCont(s[n]))
  {
    if s == [] || !IdentCont(s[0]) then 0 else 1 + IdentRun(s[1..])
  }

  /** t can stand for s after a unit: it is empty when s is, and a mark may have become a parameter. */
  predicate Follows(s: string, t: string) {
    if s == [] then t == [] else t != [] && (t[0] == s[0] || (s[0] == '?' && t[0] == '@'))
  }

  lemma RewriteFollows(s: string, k: nat)
    ensures Follows(s, Rewrite(s, k))
  {}

  lemma {:induction false} LiteralEndLocal(s: string, t: string, i: nat, q: char, triple: bool)
    requires Quote(q) && i <= |s| && i <= |t|
    requires var e := LiteralEnd(s, i, q, triple); e <= |t| && s[..e] == t[..e] && Follows(s[e..], t[e..])
    ensures LiteralEnd(t, i, q, triple) == LiteralEnd(s, i, q, triple)
    decreases |s| - i
  {
    var e := LiteralEnd(s, i, q, triple);
    assert forall j :: 0 <= j < e ==> s[j] == s[..e][j] == t[..e][j] == t[j];
    assert |s| == e <==> |t| == e;
    if i < |s| {
      if e == i { assert s[e..][0] == s[e] && t[e..][0] == t[e]; }
      if s[i] == '\\' && i + 1 < |s| {
        LiteralEndLocal(s, t, i + 2, q, triple);
      } else if e > i + 1 && !(triple && s[i] == q && i + 2 < |s| && s[i + 1] == q && s[i + 2] == q) {
        LiteralEndLocal(s, t, i + 1, q, triple);
      }
    }
  }

  lemma {:induction false} BacktickEndLocal(s: string, t: string, i: nat)
    requires i <= |s| && i <= |t|
    requires var e := BacktickEnd(s, i); e <= |t| && s[..e] == t[..e] && Follows(s[e..], t[e..])
    ensures BacktickEnd(t, i) == BacktickEnd(s, i)
    decreases |s| - i
  {
    var e := BacktickEnd(s, i);
    assert forall j :: 0 <= j < e ==> s[j] == s[..e][j] == t[..e][j] == t[j];
    assert |s| == e <==> |t| == e;
    if i < |s| && s[i] != '`' { BacktickEndLocal(s, t, i + 1); }
  }

  lemma UnitLocal(s: string, t: string)
    requires s != [] && Unit(s) <= |t| && s[..Unit(s)] == t[..Unit(s)] && Follows(s[Unit(s)..], t[Unit(s)..])
    ensures Unit(t) == Unit(s)
  {
    var n := Unit(s);
    assert s[0] == s[..n][0] == t[..n][0] == t[0];
    assert forall j :: 0 <= j < n ==> s[j] == s[..n][j] == t[..n][j] == t[j];
    if Quote(s[0]) {
      TripleLocal(s, t, n);
      LiteralEndLocal(s, t, if Triple(s) then 3 else 1, s[0], Triple(s));
    } else if s[0] == '`' {
      BacktickEndLocal(s, t, 1);
    }
  }

  lemma TripleLocal(s: string, t: string, n: nat)
    requires s != [] && Quote(s[0]) && n == Unit(s) <= |t| && (forall j :: 0 <= j < n ==> s[j] == t[j])
    requires Follows(s[n..], t[n..])
    ensures Triple(s) <==> Triple(t)
  {
    if n < |s| { assert s[n..][0] == s[n] && t[n..][0] == t[n]; }
    if !Triple(s) && |s| > 1 && s[1] == s[0] { assert LiteralEnd(s, 1, s[0], false) == 2; }
  }

  // ----- reading the rewritten query back -----

  /** A name of the form gsl_pos_<number>; names are looked up in lower case. */
  predicate Synthetic(name: string) {
    |PREFIX| < |name| && Lower(name[..|PREFIX|]) == PREFIX && AllDigits(name[|PREFIX|..])
  }

  /** The identifier characters a text starts with, and what follows them. */
  function Word(s: string): string { s[..IdentRun(s)] }

  function AfterWord(s: string): string { s[IdentRun(s)..] }

  /** The parameter name after the first character. */
  function ParamName(s: string): string
    requires s != []
  {
    Word(s[1..])
  }

  predicate SyntheticAt(s: string) { s != [] && s[0] == '@' && Synthetic(ParamName(s)) }

  /** Replaces every parameter named gsl_pos_<number> outside quoted text by a question mark. */
  function Restore(s: string): string
    decreases |s|
  {
    if s == [] then []
    else if SyntheticAt(s) then "?" + Restore(AfterWord(s[1..]))
    else s[..Unit(s)] + Restore(s[Unit(s)..])
  }

  /** The numbers of those parameters, in order. */
  function Numbers(s: string): seq<nat>
    decreases |s|
  {
    if s == [] then []
    else if SyntheticAt(s) then [ReadDecimal(ParamName(s)[|PREFIX|..])] + Numbers(AfterWord(s[1..]))
    else Numbers(s[Unit(s)..])
  }

  /** The literals and texts in backticks, in order. */
  function QuotedTexts(s: string): seq<string>
    decreases |s|
  {
    if s == [] then []
    else (if Quoted(s[0]) then [s[..Unit(s)]] else []) + QuotedTexts(s[Unit(s)..])
  }

  /** A question mark run into an identifier or number, or a name the rewrite uses itself. */
  predicate Ambiguous(s: string) {
    SyntheticAt(s) || (1 < |s| && s[0] == '?' && IdentCont(s[1]))
  }

  ghost predicate Clean(s: string) {
    forall i: nat :: Bare(s, i) ==> !AmbiguousAt(s, i)
  }

  predicate AmbiguousAt(s: string, i: nat) { i <= |s| && Ambiguous(s[i..]) }

  lemma CleanStep(s: string)
    requires s != []
    ensures Clean(s) <==> !Ambiguous(s) && Clean(s[Unit(s)..])
  {
    hide Ambiguous;
    var n := Unit(s);
    var t := s[n..];
    assert s[0..] == s && Bare(s, 0);
    if Clean(s) {
      assert !AmbiguousAt(s, 0);
      forall i: nat | Bare(t, i) ensures !AmbiguousAt(t, i) {
        assert Bare(s, n + i);
        if i <= |t| { SuffixStep(s, n, i); }
        assert !AmbiguousAt(s, n + i);
      }
    }
    if !Ambiguous(s) && Clean(t) {
      forall i: nat | Bare(s, i) ensures !AmbiguousAt(s, i) {
        if i > 0 {
          assert Bare(t, i - n);
          if i <= |s| { SuffixStep(s, n, i - n); }
          assert !AmbiguousAt(t, i - n);
        }
      }
    }
  }

  lemma {:induction false} IdentRunConcat(w: string, t: string)
    requires forall i :: 0 <= i < |w| ==> IdentCont(w[i])
    ensures IdentRun(w + t) == |w| + IdentRun(t)
    decreases |w|
  {
    if w == [] {
      assert w + t == t;
    } else {
      assert (w + t)[1..] == w[1..] + t;
      IdentRunConcat(w[1..], t);
    }
  }

  lemma NameIdent(k: nat)
    ensures forall i :: 0 <= i < |Name(k)| ==> IdentCont(Name(k)[i])
    ensures Name(k)[..|PREFIX|] == PREFIX && Name(k)[|PREFIX|..] == Decimal(k)
    ensures Synthetic(Name(k)) && AllDigits(Decimal(k))
  {
    DecimalRead(k);
    hide Decimal;
    assert Lower(PREFIX) == PREFIX;
    forall i | 0 <= i < |Name(k)| ensures IdentCont(Name(k)[i]) {
      if i < |PREFIX| { PrefixIdent(i); } else { assert Name(k)[i] == Decimal(k)[i - |PREFIX|]; }
    }
  }

  lemma PrefixIdent(i: nat)
    requires i < |PREFIX|
    ensures IdentStart(PREFIX[i])
  {}

  /** A renamed mark followed by t: the name is read with the identifier characters t starts with. */
  lemma MarkName(k: nat, t: string)
    ensures var s := "@" + Name(k) + t; s[1..] == Name(k) + t
    ensures ParamName("@" + Name(k) + t) == Name(k) + Word(t)
    ensures AfterWord(Name(k) + t) == AfterWord(t)
  {
    NameIdent(k);
    WordConcat(Name(k), t);
    hide *;
    var s := "@" + Name(k) + t;
    assert s[1..] == Name(k) + t;
    NameAfter(s);
  }

  lemma NameAfter(s: string)
    requires s != []
    ensures ParamName(s) == Word(s[1..])
  {}

  lemma WordConcat(w: string, t: string)
    requires forall i :: 0 <= i < |w| ==> IdentCont(w[i])
    ensures Word(w + t) == w + Word(t) && AfterWord(w + t) == AfterWord(t)
  {
    IdentRunConcat(w, t);
    hide IdentRun, IdentCont;
    var n := IdentRun(t);
    assert (w + t)[..|w| + n] == w + t[..n];
    assert (w + t)[|w| + n..] == t[n..];
  }

  lemma ConsPrefix(c: char, r: string, t: string, n: nat)
    requires n <= |r| && n <= |t| && r[..n] == t[..n]
    ensures ([c] + r)[..n + 1] == ([c] + t)[..n + 1]
  {
    assert ([c] + r)[..n + 1] == [c] + r[..n];
    assert ([c] + t)[..n + 1] == [c] + t[..n];
  }

  /** Identifier characters are copied, and what follows them is not one. */
  lemma {:induction false} RewriteRun(s: string, k: nat)
    ensures IdentRun(Rewrite(s, k)) == IdentRun(s)
    ensures Rewrite(s, k)[..IdentRun(s)] == s[..IdentRun(s)]
    decreases |s|
  {
    RewriteFollows(s, k);
    if s != [] && IdentCont(s[0]) {
      RewriteRun(s[1..], k);
      RewriteStep(s, k);
      PlainUnit(s);
      hide Rewrite, Unit, IdentRun;
      var c, r := s[0], Rewrite(s[1..], k);
      assert s == [c] + s[1..] && Rewrite(s, k) == [c] + r;
      IdentRunConcat([c], r);
      IdentRunConcat([c], s[1..]);
      ConsPrefix(c, r, s[1..], IdentRun(r));
    }
  }

  /** A unit of the query other than a mark is a unit of the rewritten query. */
  lemma UnitKept(s: string, k: nat)
    requires s != [] && s[0] != '?'
    ensures var n := Unit(s);
      var r := Rewrite(s, k);
      n <= |r| && Unit(r) == n && r[..n] == s[..n] && r[n..] == Rewrite(s[n..], k)
    ensures Rewrite(s, k)[0] == s[0]
  {
    RewriteStep(s, k);
    var n, r := Unit(s), Rewrite(s, k);
    hide Rewrite, Unit;
    var t := Rewrite(s[n..], k);
    RewriteFollows(s[n..], k);
    assert r == s[..n] + t;
    assert r[..n] == s[..n] && r[n..] == t;
    assert r[0] == r[..n][0] == s[..n][0] == s[0];
    UnitLocal(s, r);
  }

  lemma WordKept(s: string, k: nat)
    ensures Word(Rewrite(s, k)) == Word(s)
  {
    RewriteRun(s, k);
  }

  /** A parameter of the query keeps its name. */
  lemma ParamKept(s: string, k: nat)
    requires s != [] && s[0] == '@'
    ensures Rewrite(s, k) != [] && Rewrite(s, k)[0] == '@' && ParamName(Rewrite(s, k)) == ParamName(s)
  {
    RewriteStep(s, k);
    PlainUnit(s);
    hide *;
    var r := Rewrite(s[1..], k);
    WordKept(s[1..], k);
    assert s == "@" + s[1..] && Rewrite(s, k) == "@" + r;
    assert Rewrite(s, k)[1..] == r;
    NameAfter(s);
    NameAfter(Rewrite(s, k));
  }

  lemma SyntheticKept(s: string, k: nat)
    requires s != [] && s[0] != '?'
    ensures SyntheticAt(Rewrite(s, k)) <==> SyntheticAt(s)
  {
    UnitKept(s, k);
    if s[0] == '@' { ParamKept(s, k); }
  }

  // ----- the rewrite is undone exactly when no mark runs into a word and no name clashes -----

  lemma RestoreFirst(s: string)
    requires s != []
    ensures Restore(s) != [] && (Restore(s)[0] == s[0] || (s[0] == '@' && Restore(s)[0] == '?'))
  {}

  lemma RestoreMark(t: string, k: nat)
    requires IdentRun(t) == 0
    ensures Restore("@" + Name(k) + t) == "?" + Restore(t)
  {
    var s := "@" + Name(k) + t;
    MarkName(k, t);
    NameIdent(k);
    NoWord(t);
    hide Name, Synthetic, ParamName, Word, AfterWord;
    assert s != [] && s[0] == '@';
    assert Name(k) + Word(t) == Name(k);
  }

  lemma NoWord(t: string)
    requires IdentRun(t) == 0
    ensures Word(t) == [] && AfterWord(t) == t
  {}

  /** A mark that runs into a word does not come back. */
  lemma RestoreRunOn(t: string, k: nat, u: string)
    requires IdentRun(t) > 0 && u != [] && IdentCont(u[0])
    ensures Restore("@" + Name(k) + t) != "?" + u
  {
    var s := "@" + Name(k) + t;
    MarkName(k, t);
    AfterName(t);
    hide *;
    assert s != [] && s[0] == '@';
    if SyntheticAt(s) {
      RestoreSynthetic(s);
      DifferAfterMark(Restore(AfterWord(t)), u);
    } else {
      KeptFirst(s);
    }
  }

  lemma DifferAfterMark(r: string, u: string)
    requires u != [] && IdentCont(u[0]) && (r != [] ==> !IdentCont(r[0]))
    ensures "?" + r != "?" + u
  {
    assert ("?" + r)[1..] == r && ("?" + u)[1..] == u;
  }

  lemma RestoreSynthetic(s: string)
    requires SyntheticAt(s)
    ensures s != [] && Restore(s) == "?" + Restore(AfterWord(s[1..]))
  {}

  lemma KeptFirst(s: string)
    requires s != [] && !SyntheticAt(s)
    ensures Restore(s) != [] && Restore(s)[0] == s[0]
  {}

  lemma AfterName(t: string)
    ensures var r := Restore(AfterWord(t)); r != [] ==> !IdentCont(r[0])
  {
    if IdentRun(t) < |t| { RestoreFirst(AfterWord(t)); }
  }

  lemma {:induction false} RestoreRewrite(s: string, k: nat)
    ensures Restore(Rewrite(s, k)) == s <==> Clean(s)
    decreases |s|
  {
    if s != [] {
      CleanStep(s);
      RestoreRewrite(s[Unit(s)..], if s[0] == '?' then k + 1 else k);
      hide Clean;
      if s[0] == '?' { RestoreRewriteMark(s, k); } else { RestoreRewriteUnit(s, k); }
    }
  }

  lemma RestoreRewriteMark(s: string, k: nat)
    requires s != [] && s[0] == '?'
    ensures Restore(Rewrite(s, k)) == s <==> !Ambiguous(s) && Restore(Rewrite(s[1..], k + 1)) == s[1..]
    ensures Unit(s) == 1
  {
    RewriteStep(s, k);
    var t, u := Rewrite(s[1..], k + 1), s[1..];
    RewriteRun(u, k + 1);
    assert Ambiguous(s) <==> IdentRun(u) > 0;
    hide Rewrite, Restore, IdentRun, Name, Ambiguous;
    assert s == "?" + u;
    assert Rewrite(s, k) == "@" + Name(k + 1) + t;
    if IdentRun(u) == 0 {
      RestoreMark(t, k + 1);
      assert ("?" + Restore(t))[1..] == Restore(t);
    } else {
      RestoreRunOn(t, k + 1, u);
    }
  }

  lemma RestoreRewriteUnit(s: string, k: nat)
    requires s != [] && s[0] != '?'
    ensures Restore(Rewrite(s, k)) == s <==> !Ambiguous(s) && Restore(Rewrite(s[Unit(s)..], k)) == s[Unit(s)..]
  {
    UnitKept(s, k);
    SyntheticKept(s, k);
    AmbiguousUnit(s);
    hide *;
    if SyntheticAt(s) {
      RestoreLost(Rewrite(s, k), s);
    } else {
      RestoreKept(Rewrite(s, k), s, Unit(s));
    }
  }

  lemma RestoreLost(r: string, s: string)
    requires SyntheticAt(r) && s != [] && s[0] != '?'
    ensures Restore(r) != s
  {
    RestoreSynthetic(r);
    hide *;
    assert Restore(r)[0] == '?';
  }

  lemma RestoreKept(r: string, s: string, n: nat)
    requires r != [] && !SyntheticAt(r) && n == Unit(r) && n <= |s| && r[..n] == s[..n]
    ensures Restore(r) == s <==> Restore(r[n..]) == s[n..]
  {
    RestoreStep(r);
    hide *;
    assert s == s[..n] + s[n..];
    CommonPrefix(s[..n], Restore(r[n..]), s[n..]);
  }

  lemma AmbiguousUnit(s: string)
    requires s != [] && s[0] != '?'
    ensures Ambiguous(s) <==> SyntheticAt(s)
  {}

  lemma CommonPrefix(p: string, a: string, b: string)
    ensures p + a == p + b <==> a == b
  {
    assert (p + a)[|p|..] == a && (p + b)[|p|..] == b;
  }

  lemma RestoreStep(s: string)
    requires s != [] && !SyntheticAt(s)
    ensures Restore(s) == s[..Unit(s)] + Restore(s[Unit(s)..])
  {}

  /** A mark and a digit read as another mark's name: `?5` becomes the fifteenth parameter. */
  lemma RunOnExample()
    ensures Rewrite("?5", 0) == "@" + Name(15) && !Clean("?5")
  {
    var s := "?5";
    assert s[1..] == "5" && "5"[1..] == "";
    assert Rewrite("5", 1) == "5" + Rewrite("", 1);
    assert Decimal(15) == Decimal(1) + [DigitChar(5)];
    assert Name(15) == Name(1) + "5";
    CleanStep(s);
  }

  // ----- quoted text is copied -----

  lemma {:induction false} PlainTexts(w: string, t: string)
    requires forall i :: 0 <= i < |w| ==> !Quoted(w[i])
    ensures QuotedTexts(w + t) == QuotedTexts(t)
    decreases |w|
  {
    if w == [] {
      assert w + t == t;
    } else {
      assert (w + t)[1..] == w[1..] + t;
      PlainTexts(w[1..], t);
    }
  }

  lemma {:induction false} QuotedTextKept(s: string, k: nat)
    ensures QuotedTexts(Rewrite(s, k)) == QuotedTexts(s)
    decreases |s|
  {
    if s != [] {
      RewriteStep(s, k);
      if s[0] == '?' {
        QuotedTextKept(s[1..], k + 1);
        NameIdent(k + 1);
        hide Rewrite, Name;
        var w := "@" + Name(k + 1);
        assert forall i :: 0 <= i < |w| ==> !Quoted(w[i]);
        PlainTexts(w, Rewrite(s[1..], k + 1));
      } else {
        QuotedTextKept(s[Unit(s)..], k);
        UnitKept(s, k);
        hide Rewrite, Unit;
      }
    }
  }

  // ----- the names are numbered from left to right -----

  function From(k: nat, n: nat): seq<nat>
    decreases n
  {
    if n == 0 then [] else [k] + From(k + 1, n - 1)
  }

  lemma NumbersMark(t: string, k: nat)
    requires IdentRun(t) == 0
    ensures Numbers("@" + Name(k) + t) == [k] + Numbers(t)
  {
    var s := "@" + Name(k) + t;
    MarkName(k, t);
    NameIdent(k);
    DecimalRead(k);
    NoWord(t);
    hide Name, Synthetic, ParamName, Word, AfterWord, Decimal, ReadDecimal;
    assert s != [] && s[0] == '@';
    assert Name(k) + Word(t) == Name(k);
  }

  lemma NumbersStep(s: string)
    requires s != [] && !SyntheticAt(s)
    ensures Numbers(s) == Numbers(s[Unit(s)..])
  {}

  lemma NumbersOfMark(s: string, k: nat)
    requires s != [] && s[0] == '?' && !Ambiguous(s)
    ensures Unit(s) == 1 && Numbers(Rewrite(s, k)) == [k + 1] + Numbers(Rewrite(s[1..], k + 1))
  {
    RewriteStep(s, k);
    RewriteRun(s[1..], k + 1);
    assert IdentRun(s[1..]) == 0;
    hide Rewrite, Numbers, Name;
    NumbersMark(Rewrite(s[1..], k + 1), k + 1);
  }

  lemma NumbersOfUnit(s: string, k: nat)
    requires s != [] && s[0] != '?' && !Ambiguous(s)
    ensures Numbers(Rewrite(s, k)) == Numbers(Rewrite(s[Unit(s)..], k))
  {
    UnitKept(s, k);
    SyntheticKept(s, k);
    NotSynthetic(s);
    hide Rewrite, Numbers, Unit, SyntheticAt;
    NumbersStep(Rewrite(s, k));
  }

  lemma {:induction false} NumberedInOrder(s: string, k: nat)
    requires Clean(s)
    ensures Numbers(Rewrite(s, k)) == From(k + 1, Marks(s))
    decreases |s|
  {
    if s != [] {
      CleanStep(s);
      hide Clean, Rewrite, Numbers, Ambiguous;
      if s[0] == '?' {
        NumbersOfMark(s, k);
        NumberedInOrder(s[1..], k + 1);
      } else {
        NumbersOfUnit(s, k);
        NumberedInOrder(s[Unit(s)..], k);
      }
    }
  }

  lemma NotSynthetic(s: string)
    requires !Ambiguous(s)
    ensures !SyntheticAt(s)
  {}

  // ----- the arguments -----

  lemma NameInjective(j: nat, k: nat)
    requires Name(j) == Name(k)
    ensures j == k
  {
    NameIdent(j);
    NameIdent(k);
    DecimalRead(j);
    DecimalRead(k);
  }

  lemma {:induction false} UnnamedMonotone<V>(args: seq<NamedValue<V>>, i: nat, j: nat)
    requires i < j <= |args| && args[i].name == ""
    ensures Unnamed(args, i) < Unnamed(args, j)
    decreases j
  {
    if i + 1 < j { UnnamedMonotone(args, i, j - 1); }
  }

  /** Some argument without a name has m others before it, when there are more than m. */
  lemma {:induction false} UnnamedFind<V>(args: seq<NamedValue<V>>, m: nat, n: nat) returns (j: nat)
    requires n <= |args| && m < Unnamed(args, n)
    ensures j < n && args[j].name == "" && Unnamed(args, j) == m
    decreases n
  {
    if m < Unnamed(args, n - 1) { j := UnnamedFind(args, m, n - 1); } else { j := n - 1; }
  }

  lemma NumberAt(query: string, i: nat)
    requires Clean(query) && i < Marks(query)
    ensures i < |Numbers(Rewrite(query, 0))| && Numbers(Rewrite(query, 0))[i] == i + 1
  {
    hide *;
    NumberedInOrder(query, 0);
    FromAt(1, Marks(query), i);
  }

  /** The value a parameter name finds: the last argument whose name is that name in lower case. */
  function LastNamed<V>(values: seq<NamedValue<V>>, name: string): (r: Option<nat>)
    ensures r.Some? ==> r.value < |values| && Lower(values[r.value].name) == name
    ensures forall l :: 0 <= l < |values| && Lower(values[l].name) == name ==> r.Some? && l <= r.value
  {
    if values == [] then None
    else if Lower(values[|values| - 1].name) == name then Some(|values| - 1)
    else LastNamed(values[..|values| - 1], name)
  }

  /** The argument for the idx-th parameter; one without a match is taken by its place. */
  function Chosen<V>(values: seq<NamedValue<V>>, name: string, idx: nat): NamedValue<V>
    requires idx < |values|
  {
    var found := LastNamed(values, name);
    if name != "" && found.Some? then values[found.value] else values[idx]
  }

  /**
   The arguments of a statement, given the lower-cased names of the parameters collected from it. None is the error
   for too few; absent values are no error, and without collected parameters the values are passed on by name.
   */
  method GetArgsFromParams<V>(given: Option<seq<NamedValue<V>>>, params: seq<string>)
    returns (r: Option<seq<NamedValue<V>>>)
    ensures given.None? ==> r == Some([])
    ensures given.Some? ==> (r.None? <==> |given.value| < |params|)
    ensures given.Some? && r.Some? && params == [] ==>
      && |r.value| == |given.value|
      && forall i :: 0 <= i < |r.value| ==> r.value[i] == given.value[i].(name := Lower(given.value[i].name))
    ensures given.Some? && r.Some? && params != [] ==>
      && |r.value| == |params|
      && forall i :: 0 <= i < |params| ==> r.value[i] == Chosen(given.value, params[i], i)
  {
    if given.None? { return Some([]); }
    var values := given.value;
    if |params| == 0 && |values| > 0 {
      var passed := [];
      for k := 0 to |values|
        invariant |passed| == k
        invariant forall i :: 0 <= i < k ==> passed[i] == values[i].(name := Lower(values[i].name))
      {
        passed := passed + [if values[k].name != "" then values[k].(name := Lower(values[k].name)) else values[k]];
        assert Lower("") == "";
      }
      return Some(passed);
    }
    if |values| < |params| { return None; }
    var namedValues: map<string, NamedValue<V>> := map[];
    for k := 0 to |values|
      invariant InMap(values[..k], namedValues)
    {
      InMapNext(values, k, namedValues);
      namedValues := namedValues[Lower(values[k].name) := values[k]];
    }
    assert values[..|values|] == values;
    var out := [];
    for idx := 0 to |params|
      invariant |out| == idx && forall i :: 0 <= i < idx ==> out[i] == Chosen(values, params[i], i)
    {
      var name := params[idx];
      if name != "" && name in namedValues {
        out := out + [namedValues[name]];
      } else {
        out := out + [values[idx]];
      }
    }
    return Some(out);
  }

  /** The map holds, under every lower-cased name, the last argument so named. */
  ghost predicate InMap<V>(values: seq<NamedValue<V>>, m: map<string, NamedValue<V>>) {
    forall name :: (name in m <==> LastNamed(values, name).Some?) &&
      (name in m ==> m[name] == values[LastNamed(values, name).value])
  }

  lemma InMapNext<V>(values: seq<NamedValue<V>>, k: nat, m: map<string, NamedValue<V>>)
    requires k < |values| && InMap(values[..k], m)
    ensures InMap(values[..k + 1], m[Lower(values[k].name) := values[k]])
  {
    var s, m' := values[..k + 1], m[Lower(values[k].name) := values[k]];
    assert s[..k] == values[..k];
    hide Lower;
    forall name
      ensures (name in m' <==> LastNamed(s, name).Some?) && (name in m' ==> m'[name] == s[LastNamed(s, name).value])
    {
      assert LastNamed(s, name) == if Lower(s[k].name) == name then Some(k) else LastNamed(s[..k], name);
    }
  }

  /**
   The i-th parameter of the rewritten query finds the i-th argument without a name if and only if no argument
   after that one has its name, in any case.
   */
  lemma MarkBinding<V>(query: string, args: seq<NamedValue<V>>, bound: seq<NamedValue<V>>, i: nat) returns (j: nat)
    requires Clean(query) && Bound(args, bound, |args|)
    requires i < Marks(query) && i < Unnamed(args, |args|)
    ensures i < |Numbers(Rewrite(query, 0))|
    ensures j < |args| && args[j].name == "" && Unnamed(args, j) == i && bound[j].value == args[j].value
    ensures LastNamed(bound, Name(Numbers(Rewrite(query, 0))[i])) == Some(j)
      <==> forall l :: j < l < |args| ==> Lower(args[l].name) != Name(i + 1)
  {
    hide *;
    NumberAt(query, i);
    j := UnnamedFind(args, i, |args|);
    BoundValue(args, bound, j);
    forall l | 0 <= l < |bound|
      ensures Lower(bound[l].name) == Name(i + 1) <==> l == j || Lower(args[l].name) == Name(i + 1)
    {
      OneName(args, bound, i, j, l);
    }
  }

  lemma BoundValue<V>(args: seq<NamedValue<V>>, bound: seq<NamedValue<V>>, j: nat)
    requires Bound(args, bound, |args|) && j < |args|
    ensures |bound| == |args| && bound[j].value == args[j].value
  {
    hide Name;
  }

  lemma LowerName(k: nat)
    ensures Lower(Name(k)) == Name(k) && Lower("") != Name(k)
  {
    NameIdent(k);
    hide Decimal;
    forall i | 0 <= i < |Name(k)| ensures LowerChar(Name(k)[i]) == Name(k)[i] {
      if i >= |PREFIX| { assert Name(k)[i] == Decimal(k)[i - |PREFIX|]; }
    }
  }

  lemma OneName<V>(args: seq<NamedValue<V>>, bound: seq<NamedValue<V>>, i: nat, j: nat, l: nat)
    requires Bound(args, bound, |args|)
    requires j < |args| && args[j].name == "" && Unnamed(args, j) == i && l < |args|
    ensures Lower(bound[l].name) == Name(i + 1) <==> l == j || Lower(args[l].name) == Name(i + 1)
  {
    hide Name, Lower;
    LowerName(i + 1);
    if args[l].name == "" {
      LowerName(Unnamed(args, l) + 1);
      if Name(Unnamed(args, l) + 1) == Name(i + 1) {
        NameInjective(Unnamed(args, l) + 1, i + 1);
        if l < j { UnnamedMonotone(args, l, j); } else if j < l { UnnamedMonotone(args, j, l); }
      }
    }
  }

  /** A parameter beyond the arguments without a name takes, by its place, an argument meant for another. */
  lemma MissingArgument<V>(args: seq<NamedValue<V>>, bound: seq<NamedValue<V>>, i: nat, idx: nat)
    requires Bound(args, bound, |args|) && Unnamed(args, |args|) <= i && idx < |args|
    requires forall l :: 0 <= l < |args| ==> Lower(args[l].name) != Name(i + 1)
    ensures LastNamed(bound, Name(i + 1)) == None && Chosen(bound, Name(i + 1), idx) == bound[idx]
  {
    forall l | 0 <= l < |bound| ensures Lower(bound[l].name) != Name(i + 1) {
      hide Name, Lower;
      if args[l].name == "" {
        UnnamedMonotone(args, l, |args|);
        LowerName(Unnamed(args, l) + 1);
        if Name(Unnamed(args, l) + 1) == Name(i + 1) { NameInjective(Unnamed(args, l) + 1, i + 1); }
      }
    }
  }

  /** An argument named GSL_POS_1 after the first one without a name takes its parameter. */
  lemma NameClashExample<V>(a: V, b: V, bound: seq<NamedValue<V>>)
    requires var args := [NamedValue("", a), NamedValue("GSL_POS_1", b)]; Bound(args, bound, 2)
    ensures Name(1) == "gsl_pos_1" && LastNamed(bound, "gsl_pos_1") == Some(1)
  {
    assert Decimal(1) == "1";
    assert Lower("GSL_POS_1") == "gsl_pos_1";
  }

  lemma {:induction false} FromAt(k: nat, n: nat, i: nat)
    requires i < n
    ensures |From(k, n)| == n && From(k, n)[i] == k + i
    decreases n
  {
    if n > 1 { FromAt(k + 1, n - 1, if i == 0 then 0 else i - 1); }
  }

  // ----- well-formed literals are read whole -----

  /** The body of a literal: a character, or a backslash with the character it escapes. */
  datatype Piece = Plain(c: char) | Escape(c: char)

  function PieceText(p: Piece): string {
    if p.Plain? then [p.c] else ['\\', p.c]
  }

  function Text(ps: seq<Piece>): string {
    if ps == [] then [] else PieceText(ps[0]) + Text(ps[1..])
  }

  /** A one-line body holds no bare quote, backslash or line break. */
  predicate OneLine(ps: seq<Piece>, q: char) {
    forall i :: 0 <= i < |ps| && ps[i].Plain? ==> ps[i].c != q && ps[i].c != '\\' && ps[i].c != '\n'
  }

  /** A body between triple quotes holds no bare backslash and nowhere three bare quotes, closing ones included. */
  predicate ManyLines(ps: seq<Piece>, q: char) {
    && (forall i :: 0 <= i < |ps| && ps[i].Plain? ==> ps[i].c != '\\')
    && (forall i :: 0 <= i < |ps| ==> !ThreeQuotes(ps + [Plain(q), Plain(q), Plain(q)], i, q))
  }

  predicate ThreeQuotes(ps: seq<Piece>, i: nat, q: char) {
    i + 2 < |ps| && ps[i] == Plain(q) && ps[i + 1] == Plain(q) && ps[i + 2] == Plain(q)
  }

  /** A piece of a one-line body is passed over. */
  lemma PiecePassed(before: string, p: Piece, rest: string, q: char)
    requires Quote(q) && (p.Plain? ==> p.c != q && p.c != '\\' && p.c != '\n')
    ensures var s, i := before + PieceText(p) + rest, |before + PieceText(p)|;
      LiteralEnd(s, |before|, q, false) == LiteralEnd(s, i, q, false)
  {
    var s := before + PieceText(p) + rest;
    assert s[|before|] == PieceText(p)[0];
  }

  lemma {:induction false} PiecesPassed(before: string, ps: seq<Piece>, rest: string, q: char)
    requires Quote(q) && OneLine(ps, q)
    ensures var s := before + Text(ps) + rest;
      LiteralEnd(s, |before|, q, false) == LiteralEnd(s, |before + Text(ps)|, q, false)
    decreases |ps|
  {
    hide LiteralEnd, PieceText;
    if ps == [] {
      assert before + Text(ps) == before;
    } else {
      var p, t := PieceText(ps[0]), Text(ps[1..]);
      hide Text;
      PiecePassed(before, ps[0], t + rest, q);
      PiecesPassed(before + p, ps[1..], rest, q);
      Reassociate(before, p, t, rest);
    }
  }

  lemma Reassociate(a: string, b: string, c: string, d: string)
    ensures a + b + c == a + (b + c) && a + b + c + d == a + b + (c + d)
  {}

  lemma OneLineEnd(before: string, ps: seq<Piece>, q: char, after: string)
    requires Quote(q) && OneLine(ps, q)
    ensures LiteralEnd(before + Text(ps) + [q] + after, |before|, q, false) == |before| + |Text(ps)| + 1
  {
    PiecesPassed(before, ps, [q] + after, q);
    hide Text, OneLine;
    Reassociate(before, Text(ps), [q], after);
  }

  lemma OneLineLiteral(ps: seq<Piece>, q: char, after: string)
    requires Quote(q) && OneLine(ps, q) && !(ps == [] && after != [] && after[0] == q)
    ensures Unit([q] + Text(ps) + [q] + after) == |Text(ps)| + 2
  {
    OneLineEnd([q], ps, q, after);
    if ps != [] { assert Text(ps)[0] != q; }
  }

  /** A one-line literal that is not closed ends before the line does, or with the text. */
  lemma OpenLiteralEnd(before: string, ps: seq<Piece>, q: char, after: string)
    requires Quote(q) && OneLine(ps, q) && (after == [] || after[0] == '\n')
    ensures LiteralEnd(before + Text(ps) + after, |before|, q, false) == |before| + |Text(ps)|
  {
    PiecesPassed(before, ps, after, q);
    hide *;
    LineDone(before + Text(ps), after, q);
  }

  lemma LineDone(before: string, after: string, q: char)
    requires Quote(q) && (after == [] || after[0] == '\n')
    ensures LiteralEnd(before + after, |before|, q, false) == |before|
  {}

  lemma OpenLiteral(ps: seq<Piece>, q: char, after: string)
    requires Quote(q) && OneLine(ps, q) && (after == [] || after[0] == '\n')
    ensures Unit([q] + Text(ps) + after) == |Text(ps)| + 1
  {
    OpenLiteralEnd([q], ps, q, after);
    if ps != [] { assert Text(ps)[0] != q; }
  }

  /** A triple-quoted literal that is not closed takes the rest of the text. */
  lemma {:induction false} OpenTriple(s: string, i: nat, q: char)
    requires Quote(q) && i <= |s| && forall j :: i <= j < |s| ==> s[j] != q
    ensures LiteralEnd(s, i, q, true) == |s|
    decreases |s| - i
  {
    if i < |s| { OpenTriple(s, if s[i] == '\\' && i + 1 < |s| then i + 2 else i + 1, q); }
  }

  lemma SkipPiece(before: string, p: Piece, rest: string, q: char)
    requires p.Plain? ==> p.c != '\\'
    requires var t := PieceText(p) + rest; |t| > 2 && !(t[0] == q && t[1] == q && t[2] == q)
    requires Quote(q)
    ensures var s := before + PieceText(p) + rest;
      LiteralEnd(s, |before|, q, true) == LiteralEnd(s, |before| + |PieceText(p)|, q, true)
  {
    var w := PieceText(p);
    assert w[0] == (if p.Plain? then p.c else '\\') && (|w| == if p.Plain? then 1 else 2);
    hide *;
    var s, t := before + w + rest, w + rest;
    assert s == before + t;
    var i := |before|;
    assert s[i] == t[0] == w[0] && s[i + 1] == t[1] && s[i + 2] == t[2];
    SkipAt(s, i, if p.Plain? then 1 else 2, q);
  }

  lemma SkipAt(s: string, i: nat, n: nat, q: char)
    requires i + 2 < |s| && !(s[i] == q && s[i + 1] == q && s[i + 2] == q)
    requires n == if s[i] == '\\' then 2 else 1
    ensures LiteralEnd(s, i, q, true) == LiteralEnd(s, i + n, q, true)
  {}

  lemma Regroup(a: string, p: string, t: string, b: string, c: string)
    ensures (p + t) + b + c == p + (t + b + c)
    ensures a + (p + t) + b + c == a + p + (t + b + c)
    ensures (a + p) + t + b + c == a + p + (t + b + c)
  {}

  lemma {:induction false} ManyLinesEnd(before: string, ps: seq<Piece>, q: char, after: string)
    requires Quote(q) && ManyLines(ps, q)
    ensures LiteralEnd(before + Text(ps) + [q, q, q] + after, |before|, q, true) == |before| + |Text(ps)| + 3
    decreases |ps|
  {
    if ps != [] {
      var p := PieceText(ps[0]);
      assert ps[0].Plain? ==> ps[0].c != '\\';
      hide *;
      ManyLinesTail(ps, q);
      NotThree(ps, q, after);
      TextCons(ps);
      ManyLinesEnd(before + p, ps[1..], q, after);
      var rest := Text(ps[1..]) + [q, q, q] + after;
      Regroup(before, p, Text(ps[1..]), [q, q, q], after);
      SkipPiece(before, ps[0], rest, q);
    }
  }

  lemma ManyLinesTail(ps: seq<Piece>, q: char)
    requires ps != [] && ManyLines(ps, q)
    ensures ManyLines(ps[1..], q)
  {
    assert forall i :: 0 <= i < |ps[1..]| ==> ps[1..][i] == ps[i + 1];
    var s := ps + [Plain(q), Plain(q), Plain(q)];
    var t := ps[1..] + [Plain(q), Plain(q), Plain(q)];
    forall i | 0 <= i < |ps| - 1 ensures !ThreeQuotes(t, i, q) {
      assert !ThreeQuotes(s, i + 1, q);
      assert t == s[1..];
    }
  }

  lemma TextCons(ps: seq<Piece>)
    requires ps != []
    ensures Text(ps) == PieceText(ps[0]) + Text(ps[1..])
  {}

  /** The text of pieces starts with three quotes only when the pieces do. */
  lemma StartsWithThree(ps: seq<Piece>, q: char)
    requires Quote(q) && |ps| > 2 && !ThreeQuotes(ps, 0, q)
    ensures forall after: string ::
      var s := Text(ps) + after; |s| > 2 && !(s[0] == q && s[1] == q && s[2] == q)
  {
    TextCons(ps);
    TextCons(ps[1..]);
    TextCons(ps[2..]);
    assert ps[1..][0] == ps[1] && ps[1..][1..] == ps[2..] && ps[2..][0] == ps[2];
    hide Text;
    var t := Text(ps);
    assert |t| > 2 && !(t[0] == q && t[1] == q && t[2] == q);
  }

  lemma {:induction false} TextConcat(ps: seq<Piece>, rs: seq<Piece>)
    ensures Text(ps + rs) == Text(ps) + Text(rs)
    decreases |ps|
  {
    if ps == [] {
      assert ps + rs == rs;
    } else {
      assert (ps + rs)[1..] == ps[1..] + rs;
      TextConcat(ps[1..], rs);
    }
  }

  lemma ThreeText(q: char)
    ensures Text([Plain(q), Plain(q), Plain(q)]) == [q, q, q]
  {
    assert Text([Plain(q)]) == [q];
    assert Text([Plain(q), Plain(q)]) == [q, q];
  }

  /** The text of a body does not start with three quotes, closing ones included. */
  lemma NotThree(ps: seq<Piece>, q: char, after: string)
    requires Quote(q) && ps != [] && ManyLines(ps, q)
    ensures var s := Text(ps) + [q, q, q] + after; !(s[0] == q && s[1] == q && s[2] == q)
  {
    var close := [Plain(q), Plain(q), Plain(q)];
    assert !ThreeQuotes(ps + close, 0, q);
    hide *;
    TextConcat(ps, close);
    ThreeText(q);
    StartsWithThree(ps + close, q);
  }

  lemma ManyLinesLiteral(ps: seq<Piece>, q: char, after: string)
    requires Quote(q) && ManyLines(ps, q)
    ensures Unit([q, q, q] + Text(ps) + [q, q, q] + after) == |Text(ps)| + 6
  {
    ManyLinesEnd([q, q, q], ps, q, after);
  }
}

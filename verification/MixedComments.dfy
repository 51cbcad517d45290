/**
 Comments and quoted identifiers in a query with mixed parameters. The rewrite does not know comments, so a question
 mark in one is renamed and a quote in one can hide the marks after it, and it does not know that a backtick can be
 escaped, so it can leave a quoted identifier too early.
 */
module MixedComments {
  import opened Ascii
  import opened Decimals
  import opened Sequences
  import opened MixedParameters

  // ----- how GoogleSQL reads a query -----

  /** `#` and `--` up to the end of the line, and slash-star up to star-slash. */
  predicate Comment(s: string) {
    s != [] && (s[0] == '#' || Block(s) || (1 < |s| && s[0] == '-' && s[1] == '-'))
  }

  predicate Block(s: string) { 1 < |s| && s[0] == '/' && s[1] == '*' }

  function LineEnd(s: string, i: nat): (e: nat)
    requires i <= |s|
    ensures i <= e <= |s|
    decreases |s| - i
  {
    if i == |s| || s[i] == '\n' then i else LineEnd(s, i + 1)
  }

  function BlockEnd(s: string, i: nat): (e: nat)
    requires i <= |s|
    ensures i <= e <= |s|
    decreases |s| - i
  {
    if i == |s| then i
    else if i + 1 < |s| && s[i] == '*' && s[i + 1] == '/' then i + 2
    else BlockEnd(s, i + 1)
  }

  /** Where a quoted identifier ends, read from i; it has the escape sequences of a string literal. */
  function IdentifierEnd(s: string, i: nat): (e: nat)
    requires i <= |s|
    ensures i <= e <= |s|
    decreases |s| - i
  {
    if i == |s| then i
    else if s[i] == '\\' && i + 1 < |s| then IdentifierEnd(s, i + 2)
    else if s[i] == '`' then i + 1
    else IdentifierEnd(s, i + 1)
  }

  /** The length of the first unit: a comment, a quoted identifier, a literal or one character. */
  function RealUnit(s: string): (n: nat)
    requires s != []
    ensures 0 < n <= |s|
  {
    if Block(s) then BlockEnd(s, 2)
    else if Comment(s) then LineEnd(s, 1)
    else if s[0] == '`' then IdentifierEnd(s, 1)
    else Unit(s)
  }

  /** The positions of the parameters from j on. */
  function RealMarks(q: string, j: nat): seq<nat>
    requires j <= |q|
    decreases |q| - j
  {
    if j == |q| then []
    else (if q[j] == '?' then [j] else []) + RealMarks(q, j + RealUnit(q[j..]))
  }

  /** The positions of the question marks the rewrite renames, from i on. */
  function RenamedMarks(q: string, i: nat): seq<nat>
    requires i <= |q|
    decreases |q| - i
  {
    if i == |q| then []
    else (if q[i] == '?' then [i] else []) + RenamedMarks(q, i + Unit(q[i..]))
  }

  // ----- the condition: two readings side by side -----

  /** Reading the query both ways, the reading that is behind never stands on a question mark. */
  predicate Abreast(q: string, i: nat, j: nat)
    requires i <= |q| && j <= |q|
    decreases |q| - i + |q| - j
  {
    if i < j then q[i] != '?' && Abreast(q, i + Unit(q[i..]), j)
    else if j < i then q[j] != '?' && Abreast(q, i, j + RealUnit(q[j..]))
    else i == |q| || Abreast(q, i + Unit(q[i..]), j + RealUnit(q[j..]))
  }

  /** Positions of question marks in increasing order, from a position on. */
  predicate MarkList(q: string, ps: seq<nat>, from: nat)
    decreases |ps|
  {
    ps == [] || (from <= ps[0] < |q| && q[ps[0]] == '?' && MarkList(q, ps[1..], ps[0] + 1))
  }

  lemma {:induction false} MarkListFrom(q: string, ps: seq<nat>, from: nat, earlier: nat)
    requires MarkList(q, ps, from) && earlier <= from
    ensures MarkList(q, ps, earlier)
  {}

  lemma ConsMark(q: string, i: nat, ps: seq<nat>)
    requires i < |q| && q[i] == '?' && MarkList(q, ps, i + 1)
    ensures MarkList(q, [i] + ps, i)
  {
    assert ([i] + ps)[1..] == ps;
  }

  lemma RealStep(q: string, j: nat)
    requires j < |q|
    ensures var rest := RealMarks(q, j + RealUnit(q[j..])); RealMarks(q, j) == if q[j] == '?' then [j] + rest else rest
  {
    hide RealUnit;
    assert [] + RealMarks(q, j + RealUnit(q[j..])) == RealMarks(q, j + RealUnit(q[j..]));
  }

  lemma RenamedStep(q: string, i: nat)
    requires i < |q|
    ensures var rest := RenamedMarks(q, i + Unit(q[i..]));
      RenamedMarks(q, i) == if q[i] == '?' then [i] + rest else rest
  {
    hide Unit;
    assert [] + RenamedMarks(q, i + Unit(q[i..])) == RenamedMarks(q, i + Unit(q[i..]));
  }

  lemma MarkListStep(q: string, i: nat, n: nat, rest: seq<nat>, ps: seq<nat>)
    requires i < n && i < |q| && MarkList(q, rest, n) && ps == if q[i] == '?' then [i] + rest else rest
    ensures MarkList(q, ps, i)
  {
    hide MarkList;
    MarkListFrom(q, rest, n, i);
    MarkListFrom(q, rest, n, i + 1);
    if q[i] == '?' { ConsMark(q, i, rest); }
  }

  lemma {:induction false} RealMarkList(q: string, j: nat)
    requires j <= |q|
    ensures MarkList(q, RealMarks(q, j), j)
    decreases |q| - j
  {
    if j == |q| {
      MarksEnd(q);
    } else {
      hide *;
      var n := j + RealUnit(q[j..]);
      RealMarkList(q, n);
      RealStep(q, j);
      MarkListStep(q, j, n, RealMarks(q, n), RealMarks(q, j));
    }
  }

  lemma {:induction false} RenamedMarkList(q: string, i: nat)
    requires i <= |q|
    ensures MarkList(q, RenamedMarks(q, i), i)
    decreases |q| - i
  {
    if i == |q| {
      MarksEnd(q);
    } else {
      hide *;
      var n := i + Unit(q[i..]);
      RenamedMarkList(q, n);
      RenamedStep(q, i);
      MarkListStep(q, i, n, RenamedMarks(q, n), RenamedMarks(q, i));
    }
  }

  lemma MarkUnits(s: string)
    requires s != [] && s[0] == '?'
    ensures Unit(s) == 1 && RealUnit(s) == 1
  {}

  lemma HeadsDiffer(q: string, p: nat, ps: seq<nat>, qs: seq<nat>, from: nat)
    requires MarkList(q, qs, from) && p < from
    ensures [p] + ps != qs
  {
    assert ([p] + ps)[0] == p;
  }

  lemma SameTail(p: nat, xs: seq<nat>, ys: seq<nat>)
    ensures [p] + xs == [p] + ys <==> xs == ys
  {
    assert ([p] + xs)[1..] == xs && ([p] + ys)[1..] == ys;
  }

  /** The rewrite renames exactly the parameters if and only if the two readings stay abreast. */
  lemma {:induction false} SameMarksIff(q: string, i: nat, j: nat)
    requires i <= |q| && j <= |q|
    ensures Same(q, i, j)
    decreases |q| - i + |q| - j
  {
    hide *;
    if i < j {
      if q[i] != '?' { SameMarksIff(q, i + Unit(q[i..]), j); }
      RenamedBehind(q, i, j);
    } else if j < i {
      if q[j] != '?' { SameMarksIff(q, i, j + RealUnit(q[j..])); }
      RealBehind(q, i, j);
    } else if i < |q| {
      SameMarksIff(q, i + Unit(q[i..]), j + RealUnit(q[j..]));
      SameMark(q, i);
    } else {
      SameEnd(q);
    }
  }

  lemma SameEnd(q: string)
    ensures Same(q, |q|, |q|)
  {
    MarksEnd(q);
    AbreastStep(q, |q|, |q|);
  }

  /** The two lists of marks agree as far as the readings do. */
  predicate Same(q: string, i: nat, j: nat)
    requires i <= |q| && j <= |q|
  {
    RenamedMarks(q, i) == RealMarks(q, j) <==> Abreast(q, i, j)
  }

  lemma RenamedBehind(q: string, i: nat, j: nat)
    requires i < j <= |q| && (q[i] != '?' ==> Same(q, i + Unit(q[i..]), j))
    ensures Same(q, i, j)
  {
    AbreastStep(q, i, j);
    RenamedStep(q, i);
    RealMarkList(q, j);
    hide Abreast, Unit, RenamedMarks, RealMarks, MarkList;
    if q[i] == '?' { HeadsDiffer(q, i, RenamedMarks(q, i + Unit(q[i..])), RealMarks(q, j), j); }
  }

  lemma RealBehind(q: string, i: nat, j: nat)
    requires j < i <= |q| && (q[j] != '?' ==> Same(q, i, j + RealUnit(q[j..])))
    ensures Same(q, i, j)
  {
    AbreastStep(q, i, j);
    RealStep(q, j);
    RenamedMarkList(q, i);
    hide Abreast, RealUnit, RenamedMarks, RealMarks, MarkList;
    if q[j] == '?' { HeadsDiffer(q, j, RealMarks(q, j + RealUnit(q[j..])), RenamedMarks(q, i), i); }
  }

  lemma SameMark(q: string, i: nat)
    requires i < |q| && Same(q, i + Unit(q[i..]), i + RealUnit(q[i..]))
    ensures Same(q, i, i)
  {
    AbreastStep(q, i, i);
    RenamedStep(q, i);
    RealStep(q, i);
    hide Abreast, Unit, RealUnit, RenamedMarks, RealMarks;
    SameTail(i, RenamedMarks(q, i + Unit(q[i..])), RealMarks(q, i + RealUnit(q[i..])));
  }

  lemma MarksEnd(q: string)
    ensures RenamedMarks(q, |q|) == [] && RealMarks(q, |q|) == []
  {}

  lemma AbreastStep(q: string, i: nat, j: nat)
    requires i <= |q| && j <= |q|
    ensures i < j ==> (Abreast(q, i, j) <==> q[i] != '?' && Abreast(q, i + Unit(q[i..]), j))
    ensures j < i ==> (Abreast(q, i, j) <==> q[j] != '?' && Abreast(q, i, j + RealUnit(q[j..])))
    ensures i == j < |q| ==> (Abreast(q, i, j) <==> Abreast(q, i + Unit(q[i..]), j + RealUnit(q[j..])))
    ensures i == j == |q| ==> Abreast(q, i, j)
  {
    hide Unit, RealUnit;
  }

  // ----- on the text of the query -----

  /** The query from a position on, with the marks at some positions renamed in order after the first k. */
  function WithNames(q: string, ps: seq<nat>, from: nat, k: nat): string
    requires MarkList(q, ps, from) && from <= |q|
    decreases |ps|
  {
    if ps == [] then q[from..]
    else q[from..ps[0]] + ("@" + Name(k + 1)) + WithNames(q, ps[1..], ps[0] + 1, k + 1)
  }

  /** A longer first piece. */
  lemma WithNamesLater(q: string, ps: seq<nat>, from: nat, later: nat, k: nat)
    requires from <= later <= |q| && MarkList(q, ps, later)
    ensures MarkList(q, ps, from) && WithNames(q, ps, from, k) == q[from..later] + WithNames(q, ps, later, k)
  {
    MarkListFrom(q, ps, later, from);
    hide Name;
    if ps == [] {
      assert q[from..later] + q[later..] == q[from..];
    } else {
      assert q[from..ps[0]] == q[from..later] + q[later..ps[0]];
      var w, t := "@" + Name(k + 1), WithNames(q, ps[1..], ps[0] + 1, k + 1);
      assert (q[from..later] + q[later..ps[0]]) + w + t == q[from..later] + (q[later..ps[0]] + w + t);
    }
  }

  lemma {:induction false} RewriteNames(q: string, i: nat, k: nat)
    requires i <= |q|
    ensures MarkList(q, RenamedMarks(q, i), i) && Rewrite(q[i..], k) == WithNames(q, RenamedMarks(q, i), i, k)
    decreases |q| - i
  {
    RenamedMarkList(q, i);
    if i == |q| {
      MarksEnd(q);
      assert q[i..] == [];
    } else if q[i] == '?' {
      RewriteNames(q, i + 1, k + 1);
      hide *;
      RewriteNamesMark(q, i, k);
    } else {
      RewriteNames(q, i + Unit(q[i..]), k);
      hide *;
      RewriteNamesUnit(q, i, k);
    }
  }

  lemma RewriteNamesMark(q: string, i: nat, k: nat)
    requires i < |q| && q[i] == '?' && MarkList(q, RenamedMarks(q, i + 1), i + 1)
    requires Rewrite(q[i + 1..], k + 1) == WithNames(q, RenamedMarks(q, i + 1), i + 1, k + 1)
    ensures MarkList(q, RenamedMarks(q, i), i) && Rewrite(q[i..], k) == WithNames(q, RenamedMarks(q, i), i, k)
  {
    hide *;
    RenamedStep(q, i);
    MarkUnits(q[i..]);
    RewriteStep(q[i..], k);
    SuffixStep(q, i, 1);
    NamesHead(q, i, RenamedMarks(q, i + 1), k);
  }

  lemma RewriteNamesUnit(q: string, i: nat, k: nat)
    requires i < |q| && q[i] != '?'
    requires var n := i + Unit(q[i..]);
      MarkList(q, RenamedMarks(q, n), n) && Rewrite(q[n..], k) == WithNames(q, RenamedMarks(q, n), n, k)
    ensures MarkList(q, RenamedMarks(q, i), i) && Rewrite(q[i..], k) == WithNames(q, RenamedMarks(q, i), i, k)
  {
    hide *;
    var n := Unit(q[i..]);
    RenamedStep(q, i);
    RewriteStep(q[i..], k);
    SuffixStep(q, i, n);
    WithNamesLater(q, RenamedMarks(q, i + n), i, i + n, k);
  }

  lemma NamesHead(q: string, i: nat, ps: seq<nat>, k: nat)
    requires i < |q| && q[i] == '?' && MarkList(q, ps, i + 1)
    ensures MarkList(q, [i] + ps, i)
    ensures WithNames(q, [i] + ps, i, k) == ("@" + Name(k + 1)) + WithNames(q, ps, i + 1, k + 1)
  {
    ConsMark(q, i, ps);
    hide Name;
    assert ([i] + ps)[1..] == ps;
    var w, t := "@" + Name(k + 1), WithNames(q, ps, i + 1, k + 1);
    assert q[i..i] + w + t == w + t;
  }

  // ----- different marks give different texts -----

  lemma NotRenamedAt(q: string, ps: seq<nat>, from: nat, k: nat, p: nat)
    requires from <= p < |q| && MarkList(q, ps, from) && (ps == [] || p < ps[0])
    ensures |WithNames(q, ps, from, k)| > p - from && WithNames(q, ps, from, k)[p - from] == q[p]
  {
    hide Name;
  }

  lemma RenamedAt(q: string, ps: seq<nat>, from: nat, k: nat)
    requires from <= |q| && MarkList(q, ps, from) && ps != []
    ensures var s := WithNames(q, ps, from, k); |s| > ps[0] - from && s[ps[0] - from] == '@'
  {
    hide Name;
  }

  lemma ApartTexts(q: string, ps: seq<nat>, rs: seq<nat>, from: nat, k: nat)
    requires from <= |q| && MarkList(q, ps, from) && MarkList(q, rs, from) && rs != [] && (ps == [] || rs[0] < ps[0])
    ensures WithNames(q, ps, from, k) != WithNames(q, rs, from, k)
  {
    assert from <= rs[0] < |q| && q[rs[0]] == '?';
    hide *;
    RenamedAt(q, rs, from, k);
    NotRenamedAt(q, ps, from, k, rs[0]);
  }

  lemma NamesCons(q: string, ps: seq<nat>, from: nat, k: nat)
    requires from <= |q| && MarkList(q, ps, from) && ps != []
    ensures from <= ps[0] < |q| && MarkList(q, ps[1..], ps[0] + 1)
    ensures WithNames(q, ps, from, k)
      == (q[from..ps[0]] + ("@" + Name(k + 1))) + WithNames(q, ps[1..], ps[0] + 1, k + 1)
  {
    hide Name;
  }

  lemma {:induction false} DifferentMarks(q: string, ps: seq<nat>, rs: seq<nat>, from: nat, k: nat)
    requires from <= |q| && MarkList(q, ps, from) && MarkList(q, rs, from)
    ensures WithNames(q, ps, from, k) == WithNames(q, rs, from, k) <==> ps == rs
    decreases |ps|
  {
    hide *;
    if ps != [] || rs != [] {
      if ps == [] || (rs != [] && rs[0] < ps[0]) {
        ApartTexts(q, ps, rs, from, k);
      } else if rs == [] || ps[0] < rs[0] {
        ApartTexts(q, rs, ps, from, k);
      } else {
        NamesCons(q, ps, from, k);
        NamesCons(q, rs, from, k);
        DifferentMarks(q, ps[1..], rs[1..], ps[0] + 1, k + 1);
        var h := q[from..ps[0]] + ("@" + Name(k + 1));
        CommonPrefix(h, WithNames(q, ps[1..], ps[0] + 1, k + 1), WithNames(q, rs[1..], rs[0] + 1, k + 1));
        SplitHead(ps, rs);
      }
    }
  }

  lemma SplitHead(ps: seq<nat>, rs: seq<nat>)
    requires ps != [] && rs != [] && ps[0] == rs[0]
    ensures ps == rs <==> ps[1..] == rs[1..]
  {
    assert ps == [ps[0]] + ps[1..] && rs == [rs[0]] + rs[1..];
  }

  /** The rewritten query is the query with exactly its parameters renamed, if and only if the readings stay abreast. */
  lemma RenamesParametersIff(q: string)
    ensures MarkList(q, RealMarks(q, 0), 0)
    ensures Rewrite(q, 0) == WithNames(q, RealMarks(q, 0), 0, 0) <==> Abreast(q, 0, 0)
  {
    hide *;
    RealMarkList(q, 0);
    RewriteNames(q, 0, 0);
    assert q[0..] == q;
    DifferentMarks(q, RenamedMarks(q, 0), RealMarks(q, 0), 0, 0);
    SameMarksIff(q, 0, 0);
    SameIs(q);
  }

  lemma SameIs(q: string)
    requires Same(q, 0, 0)
    ensures RenamedMarks(q, 0) == RealMarks(q, 0) <==> Abreast(q, 0, 0)
  {}

  // ----- comments without quotes and identifiers without escaped backticks -----

  predicate QuoteFree(s: string) { forall i :: 0 <= i < |s| ==> !Quoted(s[i]) }

  /** The unit at j, up to e: a comment holds no quote, and an identifier no backtick before its last character. */
  predicate PlainUnitAt(q: string, j: nat, e: nat)
    requires j < e <= |q|
  {
    && (Comment(q[j..]) ==> QuoteFree(q[j..e]))
    && (q[j] == '`' ==> forall k :: j < k < e - 1 ==> q[k] != '`')
  }

  /** No comment holds a quote or a backtick, and no quoted identifier an escaped backtick. */
  predicate PlainQuotes(q: string, j: nat)
    requires j <= |q|
    decreases |q| - j
  {
    j == |q| || (PlainUnitAt(q, j, j + RealUnit(q[j..])) && PlainQuotes(q, j + RealUnit(q[j..])))
  }

  /** No comment holds a question mark. */
  predicate MarklessComments(q: string, j: nat)
    requires j <= |q|
    decreases |q| - j
  {
    j == |q| || (
      && (Comment(q[j..]) ==> '?' !in q[j..j + RealUnit(q[j..])])
      && MarklessComments(q, j + RealUnit(q[j..])))
  }

  /** The first backtick ends the text in backticks. */
  lemma {:induction false} BacktickAt(s: string, i: nat, e: nat)
    requires i <= e <= |s| && (forall k :: i <= k < e ==> s[k] != '`') && (e < |s| ==> s[e] == '`')
    ensures BacktickEnd(s, i) == if e < |s| then e + 1 else e
    decreases e - i
  {
    if i < e { BacktickAt(s, i + 1, e); }
  }

  /** A quoted identifier ends with the text, or at a backtick. */
  lemma {:induction false} IdentifierLast(s: string, i: nat)
    requires i <= |s|
    ensures var e := IdentifierEnd(s, i); e == |s| || (i < e && s[e - 1] == '`')
    decreases |s| - i
  {
    if i < |s| {
      if s[i] == '\\' && i + 1 < |s| {
        IdentifierLast(s, i + 2);
      } else if s[i] != '`' {
        IdentifierLast(s, i + 1);
      }
    }
  }

  /** Both readings of an identifier agree exactly when no backtick in it is escaped. */
  lemma SameIdentifierIff(s: string)
    requires s != [] && s[0] == '`'
    ensures RealUnit(s) == Unit(s) <==> forall k :: 0 < k < RealUnit(s) - 1 ==> s[k] != '`'
  {
    var e := IdentifierEnd(s, 1);
    IdentifierLast(s, 1);
    assert RealUnit(s) == e && Unit(s) == BacktickEnd(s, 1);
    hide *;
    if k :| 0 < k < e - 1 && s[k] == '`' {
      BacktickNoLater(s, 1, k);
    } else if 1 < e && s[e - 1] == '`' {
      BacktickAt(s, 1, e - 1);
    } else {
      BacktickAt(s, 1, e);
    }
  }

  lemma {:induction false} IdentifierEndOf(before: string, ps: seq<Piece>, after: string)
    requires forall i :: 0 <= i < |ps| && ps[i].Plain? ==> ps[i].c != '`' && ps[i].c != '\\'
    ensures IdentifierEnd(before + Text(ps) + "`" + after, |before|) == |before| + |Text(ps)| + 1
    decreases |ps|
  {
    if ps != [] {
      var p := PieceText(ps[0]);
      assert before + Text(ps) + "`" + after == (before + p) + Text(ps[1..]) + "`" + after;
      IdentifierEndOf(before + p, ps[1..], after);
    }
  }

  /** Every well-formed quoted identifier is read whole, escapes included. */
  lemma QuotedIdentifier(ps: seq<Piece>, after: string)
    requires forall i :: 0 <= i < |ps| && ps[i].Plain? ==> ps[i].c != '`' && ps[i].c != '\\'
    ensures RealUnit("`" + Text(ps) + "`" + after) == |Text(ps)| + 2
  {
    IdentifierEndOf("`", ps, after);
  }

  /** A block comment ends with the first star-slash after its opening, and without one with the text. */
  lemma {:induction false} BlockEndIs(s: string, i: nat)
    requires i <= |s|
    ensures var e := BlockEnd(s, i);
      && (forall k :: i <= k < e - 2 ==> !(s[k] == '*' && s[k + 1] == '/'))
      && ((i + 2 <= e && s[e - 2] == '*' && s[e - 1] == '/') || e == |s|)
    decreases |s| - i
  {
    if i < |s| { BlockEndIs(s, i + 1); }
  }

  /** A line comment ends before the first line feed, and without one with the text. */
  lemma {:induction false} LineEndIs(s: string, i: nat)
    requires i <= |s|
    ensures var e := LineEnd(s, i); '\n' !in s[i..e] && (e < |s| ==> s[e] == '\n')
    decreases |s| - i
  {
    if i < |s| && s[i] != '\n' {
      LineEndIs(s, i + 1);
      assert s[i..LineEnd(s, i)] == [s[i]] + s[i + 1..LineEnd(s, i)];
    }
  }

  /** A block comment is one unit, wherever it stands and whatever follows it. */
  lemma BlockComment(body: string, after: string)
    requires forall k :: 0 <= k < |body| ==> !((body + "*")[k] == '*' && (body + "*")[k + 1] == '/')
    ensures RealUnit("/*" + body + "*/" + after) == |body| + 4
  {
    var s := "/*" + body + "*/" + after;
    var n := |body| + 2;
    assert s[n] == '*' && s[n + 1] == '/';
    assert forall k :: 2 <= k <= n ==> s[k] == (body + "*")[k - 2];
    BlockEndIs(s, 2);
    BlockEndNoLater(s, 2, n);
  }

  lemma {:induction false} BlockEndNoLater(s: string, i: nat, k: nat)
    requires i <= k && k + 1 < |s| && s[k] == '*' && s[k + 1] == '/'
    ensures BlockEnd(s, i) <= k + 2
    decreases k - i
  {
    if i < k { BlockEndNoLater(s, i + 1, k); }
  }

  /** A line comment is one unit that leaves out the line feed. */
  lemma LineComment(s: string)
    requires Comment(s) && !Block(s)
    ensures var n := RealUnit(s); '\n' !in s[..n] && (n < |s| ==> s[n] == '\n')
  {
    LineEndIs(s, 1);
    assert s[..LineEnd(s, 1)] == [s[0]] + s[1..LineEnd(s, 1)];
  }

  lemma {:induction false} BacktickNoLater(s: string, i: nat, k: nat)
    requires i <= k < |s| && s[k] == '`'
    ensures BacktickEnd(s, i) <= k + 1
    decreases k - i
  {
    if i < k && s[i] != '`' { BacktickNoLater(s, i + 1, k); }
  }

  /** Reading plain characters one by one up to where the other reading stands. */
  lemma {:induction false} PlainRun(q: string, i: nat, e: nat)
    requires i <= e <= |q| && QuoteFree(q[i..e])
    ensures Abreast(q, i, e) <==> '?' !in q[i..e] && Abreast(q, e, e)
    decreases e - i
  {
    if i < e {
      assert q[i] == q[i..e][0] && q[i..e][1..] == q[i + 1..e];
      assert q[i..e] == [q[i]] + q[i + 1..e];
      AbreastStep(q, i, e);
      PlainUnit(q[i..]);
      hide Unit, Abreast;
      PlainRun(q, i + 1, e);
    }
  }

  lemma CommentFirst(q: string, j: nat)
    requires j < |q| && Comment(q[j..])
    ensures q[j] != '?' && !Quoted(q[j]) && Unit(q[j..]) == 1
  {}

  lemma SameUnit(q: string, j: nat)
    requires j < |q| && !Comment(q[j..]) && PlainUnitAt(q, j, j + RealUnit(q[j..]))
    ensures RealUnit(q[j..]) == Unit(q[j..])
  {
    var s := q[j..];
    assert s[0] == q[j];
    if s[0] == '`' {
      SameIdentifierIff(s);
      hide RealUnit, Unit;
      assert forall k :: 0 < k < RealUnit(s) - 1 ==> s[k] == q[j + k];
    }
  }

  /** Then the rewrite renames exactly the parameters if and only if no comment holds a question mark. */
  lemma {:induction false} PlainQuotesIff(q: string, j: nat)
    requires j <= |q| && PlainQuotes(q, j)
    ensures Abreast(q, j, j) <==> MarklessComments(q, j)
    decreases |q| - j
  {
    if j < |q| {
      var e := j + RealUnit(q[j..]);
      PlainQuotesIff(q, e);
      AbreastStep(q, j, j);
      if Comment(q[j..]) {
        CommentFirst(q, j);
        var c := q[j..e];
        assert c == [q[j]] + q[j + 1..e] && c[1..] == q[j + 1..e];
        hide Unit, RealUnit, Abreast, Comment;
        PlainRun(q, j + 1, e);
      } else {
        SameUnit(q, j);
      }
    }
  }

  // ----- quoted text and comments are copied -----

  predicate Covered(s: string) { s != [] && (Comment(s) || Quoted(s[0])) }

  /** The literals, quoted identifiers and comments, in order. */
  function Texts(s: string): seq<string>
    decreases |s|
  {
    if s == [] then []
    else (if Covered(s) then [s[..RealUnit(s)]] else []) + Texts(s[RealUnit(s)..])
  }

  /** The query with exactly its parameters renamed, unit by unit. */
  function RealRewrite(s: string, k: nat): string
    decreases |s|
  {
    if s == [] then []
    else if s[0] == '?' then ("@" + Name(k + 1)) + RealRewrite(s[1..], k + 1)
    else s[..RealUnit(s)] + RealRewrite(s[RealUnit(s)..], k)
  }

  lemma {:induction false} RealRewriteNames(q: string, j: nat, k: nat)
    requires j <= |q|
    ensures MarkList(q, RealMarks(q, j), j) && RealRewrite(q[j..], k) == WithNames(q, RealMarks(q, j), j, k)
    decreases |q| - j
  {
    RealMarkList(q, j);
    if j == |q| {
      MarksEnd(q);
      assert q[j..] == [];
    } else if q[j] == '?' {
      RealRewriteNames(q, j + 1, k + 1);
      hide *;
      RealNamesMark(q, j, k);
    } else {
      RealRewriteNames(q, j + RealUnit(q[j..]), k);
      hide *;
      RealNamesUnit(q, j, k);
    }
  }

  lemma RealNamesMark(q: string, j: nat, k: nat)
    requires j < |q| && q[j] == '?' && MarkList(q, RealMarks(q, j + 1), j + 1)
    requires RealRewrite(q[j + 1..], k + 1) == WithNames(q, RealMarks(q, j + 1), j + 1, k + 1)
    ensures MarkList(q, RealMarks(q, j), j) && RealRewrite(q[j..], k) == WithNames(q, RealMarks(q, j), j, k)
  {
    hide *;
    RealStep(q, j);
    MarkUnits(q[j..]);
    RealRewriteStep(q[j..], k);
    SuffixStep(q, j, 1);
    NamesHead(q, j, RealMarks(q, j + 1), k);
  }

  lemma RealNamesUnit(q: string, j: nat, k: nat)
    requires j < |q| && q[j] != '?'
    requires var n := j + RealUnit(q[j..]);
      MarkList(q, RealMarks(q, n), n) && RealRewrite(q[n..], k) == WithNames(q, RealMarks(q, n), n, k)
    ensures MarkList(q, RealMarks(q, j), j) && RealRewrite(q[j..], k) == WithNames(q, RealMarks(q, j), j, k)
  {
    hide *;
    var n := RealUnit(q[j..]);
    RealStep(q, j);
    RealRewriteStep(q[j..], k);
    SuffixStep(q, j, n);
    WithNamesLater(q, RealMarks(q, j + n), j, j + n, k);
  }

  lemma RealRewriteStep(s: string, k: nat)
    requires s != []
    ensures s[0] == '?' ==> RealRewrite(s, k) == ("@" + Name(k + 1)) + RealRewrite(s[1..], k + 1)
    ensures s[0] != '?' ==> RealRewrite(s, k) == s[..RealUnit(s)] + RealRewrite(s[RealUnit(s)..], k)
  {}

  lemma RealFollows(s: string, k: nat)
    ensures Follows(s, RealRewrite(s, k))
  {}

  lemma {:induction false} LineEndLocal(s: string, t: string, i: nat)
    requires i <= |s| && i <= |t|
    requires var e := LineEnd(s, i); e <= |t| && s[..e] == t[..e] && Follows(s[e..], t[e..])
    ensures LineEnd(t, i) == LineEnd(s, i)
    decreases |s| - i
  {
    var e := LineEnd(s, i);
    if i < e {
      assert s[i] == s[..e][i] == t[..e][i] == t[i];
      LineEndLocal(s, t, i + 1);
    } else if i < |s| {
      assert s[e..][0] == s[e] && t[e..][0] == t[e];
    }
  }

  lemma {:induction false} BlockEndLocal(s: string, t: string, i: nat)
    requires i <= |s| && i <= |t|
    requires var e := BlockEnd(s, i); e <= |t| && s[..e] == t[..e] && Follows(s[e..], t[e..])
    ensures BlockEnd(t, i) == BlockEnd(s, i)
    decreases |s| - i
  {
    var e := BlockEnd(s, i);
    assert forall j :: 0 <= j < e ==> s[j] == s[..e][j] == t[..e][j] == t[j];
    assert |s| == e <==> |t| == e;
    if i < |s| && !(i + 1 < |s| && s[i] == '*' && s[i + 1] == '/') { BlockEndLocal(s, t, i + 1); }
  }

  lemma {:induction false} IdentifierEndLocal(s: string, t: string, i: nat)
    requires i <= |s| && i <= |t|
    requires var e := IdentifierEnd(s, i); e <= |t| && s[..e] == t[..e] && Follows(s[e..], t[e..])
    ensures IdentifierEnd(t, i) == IdentifierEnd(s, i)
    decreases |s| - i
  {
    var e := IdentifierEnd(s, i);
    assert forall j :: 0 <= j < e ==> s[j] == s[..e][j] == t[..e][j] == t[j];
    assert |s| == e <==> |t| == e;
    if i < |s| {
      if s[i] == '\\' && i + 1 < |s| {
        IdentifierEndLocal(s, t, i + 2);
      } else if s[i] != '`' {
        IdentifierEndLocal(s, t, i + 1);
      }
    }
  }

  /** A comment starts where it did. */
  lemma CommentLocal(s: string, t: string)
    requires s != [] && RealUnit(s) <= |t| && s[..RealUnit(s)] == t[..RealUnit(s)]
    requires Follows(s[RealUnit(s)..], t[RealUnit(s)..])
    ensures t != [] && t[0] == s[0] && (Block(s) <==> Block(t)) && (Comment(s) <==> Comment(t))
  {
    var n := RealUnit(s);
    assert s[0] == s[..n][0] == t[..n][0] == t[0];
    assert |s| == n <==> |t| == n;
    if n > 1 {
      assert s[1] == s[..n][1] == t[..n][1] == t[1];
    } else if |s| > 1 {
      assert s[n..][0] == s[1] && t[n..][0] == t[1];
    }
  }

  lemma RealUnitLocal(s: string, t: string)
    requires s != [] && RealUnit(s) <= |t| && s[..RealUnit(s)] == t[..RealUnit(s)]
    requires Follows(s[RealUnit(s)..], t[RealUnit(s)..])
    ensures t != [] && RealUnit(t) == RealUnit(s) && (Covered(t) <==> Covered(s))
  {
    CommentLocal(s, t);
    hide Unit, Follows, Block, Comment;
    if Block(s) {
      NotShort(s);
      NotShort(t);
      BlockEndLocal(s, t, 2);
    } else if Comment(s) {
      LineEndLocal(s, t, 1);
    } else if s[0] == '`' {
      IdentifierEndLocal(s, t, 1);
    } else {
      UnitLocal(s, t);
    }
  }

  lemma NotShort(s: string)
    requires Block(s)
    ensures |s| > 1 && Comment(s)
  {}

  lemma {:induction false} PlainCovered(w: string, t: string)
    requires forall i :: 0 <= i < |w| ==> w[i] == '@' || IdentCont(w[i])
    ensures Texts(w + t) == Texts(t)
    decreases |w|
  {
    if w == [] {
      assert w + t == t;
    } else {
      assert (w + t)[0] == w[0] && (w + t)[1..] == w[1..] + t;
      PlainCovered(w[1..], t);
    }
  }

  lemma {:induction false} RealTextsKept(s: string, k: nat)
    ensures Texts(RealRewrite(s, k)) == Texts(s)
    decreases |s|
  {
    if s != [] {
      RealRewriteStep(s, k);
      var n := RealUnit(s);
      RealTextsKept(s[n..], if s[0] == '?' then k + 1 else k);
      if s[0] == '?' {
        MarkUnits(s);
        NameIdent(k + 1);
        hide RealRewrite, Name, RealUnit, IdentCont;
        PlainCovered("@" + Name(k + 1), RealRewrite(s[1..], k + 1));
      } else {
        RealFollows(s[n..], k);
        hide RealRewrite, RealUnit, Covered, Follows;
        var r, rest := RealRewrite(s, k), RealRewrite(s[n..], k);
        assert r[..n] == s[..n] && r[n..] == rest;
        RealUnitLocal(s, r);
      }
    }
  }

  /** While the readings stay abreast, literals, quoted identifiers and comments are the same in the rewritten query. */
  lemma TextsKept(q: string)
    requires Abreast(q, 0, 0)
    ensures Texts(Rewrite(q, 0)) == Texts(q)
  {
    hide *;
    RenamesParametersIff(q);
    RealRewriteNames(q, 0, 0);
    assert q[0..] == q;
    RealTextsKept(q, 0);
  }

  // ----- binding -----

  lemma {:induction false} MarksCount(q: string, i: nat)
    requires i <= |q|
    ensures |RenamedMarks(q, i)| == Marks(q[i..])
    decreases |q| - i
  {
    hide *;
    if i < |q| {
      MarksCount(q, i + Unit(q[i..]));
      MarksStep(q, i);
      RenamedStep(q, i);
    } else {
      MarksEnd(q);
      NoMark(q[i..]);
    }
  }

  lemma MarksStep(q: string, i: nat)
    requires i < |q|
    ensures Marks(q[i..]) == (if q[i] == '?' then 1 else 0) + Marks(q[i + Unit(q[i..])..])
  {
    RewriteStep(q[i..], 0);
    hide *;
    SuffixStep(q, i, Unit(q[i..]));
  }

  /**
   While the readings stay abreast, the i-th parameter of the query is renamed to the i-th name, and that name finds
   the i-th argument without a name if and only if no argument after that one has the name, in any case.
   */
  lemma PositionalBinding<V>(query: string, args: seq<NamedValue<V>>, bound: seq<NamedValue<V>>,
      i: nat) returns (j: nat)
    requires Abreast(query, 0, 0) && Clean(query) && Bound(args, bound, |args|)
    requires i < |RealMarks(query, 0)| && i < Unnamed(args, |args|)
    ensures MarkList(query, RealMarks(query, 0), 0) && Rewrite(query, 0) == WithNames(query, RealMarks(query, 0), 0, 0)
    ensures i < |Numbers(Rewrite(query, 0))| == |RealMarks(query, 0)| && Numbers(Rewrite(query, 0))[i] == i + 1
    ensures j < |args| && args[j].name == "" && Unnamed(args, j) == i && bound[j].value == args[j].value
    ensures LastNamed(bound, Name(i + 1)) == Some(j)
      <==> forall l :: j < l < |args| ==> Lower(args[l].name) != Name(i + 1)
  {
    hide *;
    RenamesParametersIff(query);
    SameMarksIff(query, 0, 0);
    SameIs(query);
    MarksCount(query, 0);
    assert query[0..] == query;
    NumberedInOrder(query, 0);
    FromLength(1, Marks(query));
    NumberAt(query, i);
    j := MarkBinding(query, args, bound, i);
  }

  lemma {:induction false} FromLength(k: nat, n: nat)
    ensures |From(k, n)| == n
    decreases n
  {
    if n > 0 { FromLength(k + 1, n - 1); }
  }

  // ----- examples -----

  lemma CommentedUnits(q: string)
    requires q == "--?\n?"
    ensures Unit(q[0..]) == 1 && Unit(q[1..]) == 1 && Unit(q[2..]) == 1 && Unit(q[3..]) == 1 && Unit(q[4..]) == 1
    ensures RealUnit(q[0..]) == 3 && RealUnit(q[3..]) == 1 && RealUnit(q[4..]) == 1
  {
    assert q[0..] == q && LineEnd(q, 3) == 3 && LineEnd(q, 2) == 3 && LineEnd(q, 1) == 3;
  }

  lemma LastMark(q: string, i: nat)
    requires |q| == i + 1 && q[i] == '?' && Unit(q[i..]) == 1
    ensures RenamedMarks(q, i) == [i]
  {
    hide *;
    MarksEnd(q);
    RenamedStep(q, i);
  }

  lemma SkipOne(q: string, i: nat)
    requires i < |q| && q[i] != '?' && Unit(q[i..]) == 1
    ensures RenamedMarks(q, i) == RenamedMarks(q, i + 1)
  {
    hide *;
    RenamedStep(q, i);
  }

  lemma TakeOne(q: string, i: nat)
    requires i < |q| && q[i] == '?' && Unit(q[i..]) == 1
    ensures RenamedMarks(q, i) == [i] + RenamedMarks(q, i + 1)
  {
    hide *;
    RenamedStep(q, i);
  }

  lemma CommentedRenamed(q: string)
    requires q == "--?\n?"
    ensures RenamedMarks(q, 0) == [2, 4]
  {
    CommentedUnits(q);
    assert |q| == 5 && q[0] == '-' && q[1] == '-' && q[2] == '?' && q[3] == '\n' && q[4] == '?';
    hide *;
    LastMark(q, 4);
    SkipOne(q, 3);
    TakeOne(q, 2);
    assert [2] + [4] == [2, 4];
    SkipOne(q, 1);
    SkipOne(q, 0);
  }

  lemma CommentedReal(q: string)
    requires q == "--?\n?"
    ensures RealMarks(q, 0) == [4]
  {
    CommentedUnits(q);
    hide *;
    MarksEnd(q);
    RealStep(q, 4);
    RealStep(q, 3);
    RealStep(q, 0);
  }

  /** The mark in the comment takes the first name, and with it the first argument. */
  lemma CommentedMarkExample()
    ensures RenamedMarks("--?\n?", 0) == [2, 4] && RealMarks("--?\n?", 0) == [4] && !Abreast("--?\n?", 0, 0)
  {
    hide *;
    var q := "--?\n?";
    CommentedRenamed(q);
    CommentedReal(q);
    SameMarksIff(q, 0, 0);
    SameIs(q);
  }

  lemma HiddenUnits(q: string)
    requires q == "/*'*/?"
    ensures Unit(q[0..]) == 1 && Unit(q[1..]) == 1 && Unit(q[2..]) == 4
    ensures RealUnit(q[0..]) == 5 && RealUnit(q[5..]) == 1
  {
    var t := q[2..];
    assert t[0] == '\'' && !Triple(t) && |t| == 4;
    assert LiteralEnd(t, 4, t[0], false) == 4 && LiteralEnd(t, 3, t[0], false) == 4;
    assert LiteralEnd(t, 2, t[0], false) == 4 && LiteralEnd(t, 1, t[0], false) == 4;
    assert q[0..] == q && BlockEnd(q, 3) == 5 && BlockEnd(q, 2) == 5;
  }

  /** The apostrophe in the comment hides the parameter after it. */
  lemma HiddenMarkExample()
    ensures Marks("/*'*/?") == 0 && RealMarks("/*'*/?", 0) == [5] && !Abreast("/*'*/?", 0, 0)
  {
    var q := "/*'*/?";
    HiddenUnits(q);
    hide *;
    RenamedStep(q, 0);
    RenamedStep(q, 1);
    RenamedStep(q, 2);
    RealStep(q, 0);
    RealStep(q, 5);
    MarksEnd(q);
    MarksCount(q, 0);
    assert q[0..] == q;
    SameMarksIff(q, 0, 0);
    SameIs(q);
  }

  lemma EscapedUnits(q: string)
    requires q == "`\\`?`"
    ensures Unit(q[0..]) == 3 && Unit(q[3..]) == 1 && Unit(q[4..]) == 1 && RealUnit(q[0..]) == 5
  {
    assert q[0..] == q && BacktickEnd(q, 2) == 3 && BacktickEnd(q, 1) == 3;
    assert IdentifierEnd(q, 4) == 5 && IdentifierEnd(q, 3) == 5 && IdentifierEnd(q, 1) == 5;
  }

  /** The escaped backtick ends the identifier for the rewrite, which then renames a part of it. */
  lemma EscapedBacktickExample()
    ensures var q := "`\\`?`"; RenamedMarks(q, 0) == [3] && RealMarks(q, 0) == [] && !Abreast(q, 0, 0)
  {
    var q := "`\\`?`";
    EscapedUnits(q);
    assert q[0] == '`' && q[3] == '?' && q[4] == '`' && |q| == 5;
    hide *;
    MarksEnd(q);
    RenamedStep(q, 4);
    RenamedStep(q, 3);
    RenamedStep(q, 0);
    RealStep(q, 0);
    SameMarksIff(q, 0, 0);
    SameIs(q);
  }
}

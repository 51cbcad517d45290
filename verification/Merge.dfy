/**
 MERGE as two staging snapshots and one statement per WHEN clause.

 The statements run one after the other on the target table, while GoogleSQL applies to every
 row, at once, the first WHEN clause that fires for it.
 */
module Merge {
  import opened Sequences

  /** Column values by column; a source row may have different columns. */
  type Row<V> = map<nat, V>

  /** A row of the target table under its rowid. */
  datatype Entry<V> = Entry(rowid: nat, row: Row<V>)

  /** What the expressions of a WHEN clause read: the target row and the source row, where there is one. */
  datatype Pair<V> = Pair(t: Option<Row<V>>, s: Option<Row<V>>)

  datatype MatchType = Matched | NotMatchedBySource | NotMatchedByTarget

  datatype Action<!V> = Update(assign: Pair<V> -> Row<V>) | Delete | Insert(values: Pair<V> -> Row<V>)

  datatype When<!V> = When(matchType: MatchType, cond: Pair<V> -> bool, action: Action<V>)

  type On<!V> = (Row<V>, Row<V>) -> bool

  // ----- GoogleSQL: each row is decided by the first WHEN clause that applies to it -----

  /** A matched pair has both rows; the other two match types lack one of them. */
  predicate Applies<V>(w: When<V>, p: Pair<V>) {
    && (match w.matchType
        case Matched => p.t.Some? && p.s.Some?
        case NotMatchedBySource => p.t.Some? && p.s.None?
        case NotMatchedByTarget => p.t.None? && p.s.Some?)
    && w.cond(p)
  }

  function FirstWhen<V>(whens: seq<When<V>>, p: Pair<V>): Option<When<V>> {
    if whens == [] then None
    else if Applies(whens[0], p) then Some(whens[0])
    else FirstWhen(whens[1..], p)
  }

  /** The source row a target row matches; the first, if there were several. */
  function MatchOf<V>(t: Row<V>, source: seq<Row<V>>, on: On<V>): Option<Row<V>> {
    if source == [] then None
    else if on(t, source[0]) then Some(source[0])
    else MatchOf(t, source[1..], on)
  }

  /** A target row with its match. */
  function TargetPair<V>(t: Row<V>, source: seq<Row<V>>, on: On<V>): Pair<V> {
    Pair(Some(t), MatchOf(t, source, on))
  }

  predicate Unmatched<V>(s: Row<V>, target: seq<Row<V>>, on: On<V>) {
    forall i :: 0 <= i < |target| ==> !on(target[i], s)
  }

  /** What a clause makes of a target row. */
  function Act<V>(action: Action<V>, t: Row<V>, p: Pair<V>): Option<Row<V>> {
    match action
    case Update(assign) => Some(t + assign(p))
    case Delete => None
    case Insert(_) => Some(t)
  }

  /** The target row after the clause that decides it; None when it is deleted. */
  function Decided<V>(whens: seq<When<V>>, t: Row<V>, p: Pair<V>): Option<Row<V>> {
    match FirstWhen(whens, p)
    case None => Some(t)
    case Some(w) => Act(w.action, t, p)
  }

  function Listed<T>(r: Option<T>): seq<T> {
    if r.None? then [] else [r.value]
  }

  function TargetStep<V>(whens: seq<When<V>>, source: seq<Row<V>>, on: On<V>): Row<V> -> seq<Row<V>> {
    (t: Row<V>) => Listed(Decided(whens, t, TargetPair(t, source, on)))
  }

  /** The row inserted for a source row. */
  function Inserted<V>(whens: seq<When<V>>, s: Row<V>): seq<Row<V>> {
    match FirstWhen(whens, Pair(None, Some(s)))
    case None => []
    case Some(w) => if w.action.Insert? then [w.action.values(Pair(None, Some(s)))] else []
  }

  function SourceStep<V>(whens: seq<When<V>>, target: seq<Row<V>>, on: On<V>): Row<V> -> seq<Row<V>> {
    (s: Row<V>) => if Unmatched(s, target, on) then Inserted(whens, s) else []
  }

  /** The rows of the target after MERGE. */
  function MergeResult<V>(whens: seq<When<V>>, target: seq<Row<V>>, source: seq<Row<V>>, on: On<V>): seq<Row<V>> {
    FlatMap(TargetStep(whens, source, on), target) + FlatMap(SourceStep(whens, target, on), source)
  }

  /** No two clauses apply to the same target row, or to the same unmatched source row. */
  ghost predicate DisjointWhens<V>(whens: seq<When<V>>, target: seq<Row<V>>, source: seq<Row<V>>, on: On<V>) {
    && (forall i, j, t :: 0 <= i < j < |whens| && t in target ==>
      !(Applies(whens[i], TargetPair(t, source, on)) && Applies(whens[j], TargetPair(t, source, on))))
    && (forall i, j, s :: 0 <= i < j < |whens| && s in source && Unmatched(s, target, on) ==>
      !(Applies(whens[i], Pair(None, Some(s))) && Applies(whens[j], Pair(None, Some(s)))))
  }

  /** UPDATE and DELETE change target rows; INSERT needs a source row without one. */
  predicate Supported<V>(w: When<V>) {
    w.matchType == NotMatchedByTarget <==> w.action.Insert?
  }

  // ----- the emitted statements -----

  datatype Stmt<!V> =
    | UpdateFrom(present: bool, cond: Pair<V> -> bool, assign: Pair<V> -> Row<V>)
    | DeleteIn(present: bool, cond: Pair<V> -> bool)
    | InsertSelect(cond: Pair<V> -> bool, values: Pair<V> -> Row<V>)

  /** None stands for the error on an unsupported combination. */
  function WhenStatement<V>(w: When<V>): Option<Stmt<V>> {
    match w.matchType
    case Matched =>
      (match w.action
       case Update(assign) => Some(UpdateFrom(true, w.cond, assign))
       case Delete => Some(DeleteIn(true, w.cond))
       case Insert(_) => None)
    case NotMatchedBySource =>
      (match w.action
       case Update(assign) => Some(UpdateFrom(false, w.cond, assign))
       case Delete => Some(DeleteIn(false, w.cond))
       case Insert(_) => None)
    case NotMatchedByTarget =>
      (match w.action
       case Insert(values) => Some(InsertSelect(w.cond, values))
       case _ => None)
  }

  function Statements<V>(whens: seq<When<V>>): Option<seq<Stmt<V>>> {
    if whens == [] then Some([])
    else
      match Statements(whens[..|whens| - 1])
      case None => None
      case Some(init) =>
        match WhenStatement(whens[|whens| - 1])
        case None => None
        case Some(stmt) => Some(init + [stmt])
  }

  // ----- the staging tables -----

  /** A row of googlesqlite_merge_t_set: `s` is None when no source row joined. */
  datatype Staged<V> = Staged(rowid: nat, t: Row<V>, s: Option<Row<V>>)

  function Matches<V>(t: Row<V>, source: seq<Row<V>>, on: On<V>): seq<Row<V>> {
    if source == [] then []
    else (if on(t, source[0]) then [source[0]] else []) + Matches(t, source[1..], on)
  }

  /** LEFT JOIN: a target row with each source row it matches, or alone. */
  function JoinStep<V>(source: seq<Row<V>>, on: On<V>): Entry<V> -> seq<Staged<V>> {
    (e: Entry<V>) =>
      var matches := Matches(e.row, source, on);
      if matches == [] then [Staged(e.rowid, e.row, None)]
      else seq(|matches|, i requires 0 <= i < |matches| => Staged(e.rowid, e.row, Some(matches[i])))
  }

  function TSet<V>(target: seq<Entry<V>>, source: seq<Row<V>>, on: On<V>): seq<Staged<V>> {
    FlatMap(JoinStep(source, on), target)
  }

  /** Source rows for which NOT EXISTS a matching target row. */
  function SOnly<V>(target: seq<Entry<V>>, source: seq<Row<V>>, on: On<V>): seq<Row<V>> {
    if source == [] then []
    else
      (if exists i :: 0 <= i < |target| && on(target[i].row, source[0]) then [] else [source[0]])
      + SOnly(target, source[1..], on)
  }

  // ----- executing a statement -----

  predicate Fires<V>(stmt: Stmt<V>, st: Staged<V>) {
    !stmt.InsertSelect? && stmt.present == st.s.Some? && stmt.cond(Pair(Some(st.t), st.s))
  }

  predicate FiresForSource<V>(stmt: Stmt<V>, s: Row<V>) {
    stmt.InsertSelect? && stmt.cond(Pair(None, Some(s)))
  }

  /** The last staged row of a rowid that passes the statement's filter. */
  function LastFiring<V>(stmt: Stmt<V>, tset: seq<Staged<V>>, rowid: nat): Option<Staged<V>> {
    if tset == [] then None
    else
      var last := tset[|tset| - 1];
      if last.rowid == rowid && Fires(stmt, last) then Some(last) else LastFiring(stmt, tset[..|tset| - 1], rowid)
  }

  /** What an UPDATE or DELETE makes of one row of the table, as the table stands. */
  function Effect<V>(stmt: Stmt<V>, tset: seq<Staged<V>>): Entry<V> -> seq<Entry<V>> {
    (e: Entry<V>) =>
      match LastFiring(stmt, tset, e.rowid)
      case None => [e]
      case Some(st) =>
        match stmt
        case UpdateFrom(_, _, assign) => [Entry(e.rowid, e.row + assign(Pair(Some(st.t), st.s)))]
        case DeleteIn(_, _) => []
        case InsertSelect(_, _) => [e]
  }

  function InsertStep<V>(stmt: Stmt<V>): Row<V> -> seq<Row<V>> {
    (s: Row<V>) => if FiresForSource(stmt, s) then [stmt.values(Pair(None, Some(s)))] else []
  }

  function RowsOf<V>(table: seq<Entry<V>>): seq<Row<V>> {
    seq(|table|, i requires 0 <= i < |table| => table[i].row)
  }

  predicate DistinctIds<V>(table: seq<Entry<V>>) {
    forall i, j :: 0 <= i < j < |table| ==> table[i].rowid != table[j].rowid
  }

  /** INSERT may give new rows any rowids that are free in the table as it stands. */
  ghost predicate Executes<V>(stmt: Stmt<V>, tset: seq<Staged<V>>, sonly: seq<Row<V>>, pre: seq<Entry<V>>,
      post: seq<Entry<V>>) {
    match stmt
    case InsertSelect(_, _) =>
      && |pre| <= |post| && post[..|pre|] == pre && DistinctIds(post)
      && RowsOf(post[|pre|..]) == FlatMap(InsertStep(stmt), sonly)
    case _ => post == FlatMap(Effect(stmt, tset), pre)
  }

  /** A run of the statements: the table before, between and after them. */
  ghost predicate Run<V>(stmts: seq<Stmt<V>>, tset: seq<Staged<V>>, sonly: seq<Row<V>>, trace: seq<seq<Entry<V>>>) {
    |trace| == |stmts| + 1 &&
    forall k :: 0 <= k < |stmts| ==> Executes(stmts[k], tset, sonly, trace[k], trace[k + 1])
  }

  // ----- the first statement that fires for a staged row -----

  function FirstFiring<V>(stmts: seq<Stmt<V>>, st: Staged<V>): Option<Stmt<V>> {
    if stmts == [] then None
    else
      var first, last := FirstFiring(stmts[..|stmts| - 1], st), stmts[|stmts| - 1];
      if first.Some? then first else if Fires(last, st) then Some(last) else None
  }

  function FirstInsert<V>(stmts: seq<Stmt<V>>, s: Row<V>): Option<Stmt<V>> {
    if stmts == [] then None
    else
      var first, last := FirstInsert(stmts[..|stmts| - 1], s), stmts[|stmts| - 1];
      if first.Some? then first else if FiresForSource(last, s) then Some(last) else None
  }

  /** A joined row stays, changes its assigned columns, or goes. */
  function Outcome<V>(stmts: seq<Stmt<V>>): Staged<V> -> seq<Entry<V>> {
    (st: Staged<V>) =>
      match FirstFiring(stmts, st)
      case None => [Entry(st.rowid, st.t)]
      case Some(stmt) =>
        match stmt
        case UpdateFrom(_, _, assign) => [Entry(st.rowid, st.t + assign(Pair(Some(st.t), st.s)))]
        case DeleteIn(_, _) => []
        case InsertSelect(_, _) => [Entry(st.rowid, st.t)]
  }

  function InsertOutcome<V>(stmts: seq<Stmt<V>>): Row<V> -> seq<Row<V>> {
    (s: Row<V>) =>
      match FirstInsert(stmts, s)
      case None => []
      case Some(stmt) => if stmt.InsertSelect? then [stmt.values(Pair(None, Some(s)))] else []
  }

  /** The table after applying to every row, at once, the first clause that fires for it. */
  function Simultaneous<V>(stmts: seq<Stmt<V>>, tset: seq<Staged<V>>, sonly: seq<Row<V>>): seq<Row<V>> {
    RowsOf(FlatMap(Outcome(stmts), tset)) + FlatMap(InsertOutcome(stmts), sonly)
  }

  // ----- the documented restrictions -----

  /** No two statements fire for the same row. */
  ghost predicate Disjoint<V>(stmts: seq<Stmt<V>>, tset: seq<Staged<V>>, sonly: seq<Row<V>>) {
    && (forall i, j, st :: 0 <= i < j < |stmts| && st in tset ==> !(Fires(stmts[i], st) && Fires(stmts[j], st)))
    && (forall i, j, s :: 0 <= i < j < |stmts| && s in sonly ==>
      !(FiresForSource(stmts[i], s) && FiresForSource(stmts[j], s)))
  }

  ghost predicate AtMostOneMatch<V>(target: seq<Entry<V>>, source: seq<Row<V>>, on: On<V>) {
    forall e, i, j :: e in target && 0 <= i < j < |source| ==> !(on(e.row, source[i]) && on(e.row, source[j]))
  }

  // ----- the staging tables partition the source rows -----

  lemma {:induction false} MatchesElems<V>(t: Row<V>, source: seq<Row<V>>, on: On<V>, s: Row<V>)
    ensures s in Matches(t, source, on) <==> s in source && on(t, s)
    decreases |source|
  {
    if source != [] { MatchesElems(t, source[1..], on, s); }
  }

  lemma {:induction false} SOnlyElems<V>(target: seq<Entry<V>>, source: seq<Row<V>>, on: On<V>, s: Row<V>)
    ensures s in SOnly(target, source, on) <==> s in source && forall i :: 0 <= i < |target| ==> !on(target[i].row, s)
    decreases |source|
  {
    if source != [] { SOnlyElems(target, source[1..], on, s); }
  }

  ghost predicate JoinedIn<V>(tset: seq<Staged<V>>, s: Row<V>) {
    exists st :: st in tset && st.s == Some(s)
  }

  lemma JoinsMatched<V>(target: seq<Entry<V>>, source: seq<Row<V>>, on: On<V>, s: Row<V>, e: Entry<V>)
    requires s in source && e in target && on(e.row, s)
    ensures JoinedIn(TSet(target, source, on), s)
  {
    MatchesElems(e.row, source, on, s);
    var matches := Matches(e.row, source, on);
    var k :| 0 <= k < |matches| && matches[k] == s;
    var st := Staged(e.rowid, e.row, Some(s));
    assert JoinStep(source, on)(e)[k] == st;
    FlatMapElems(JoinStep(source, on), target, st);
  }

  lemma JoinedMatches<V>(target: seq<Entry<V>>, source: seq<Row<V>>, on: On<V>, s: Row<V>) returns (e: Entry<V>)
    requires JoinedIn(TSet(target, source, on), s)
    ensures e in target && on(e.row, s)
  {
    var st :| st in TSet(target, source, on) && st.s == Some(s);
    FlatMapElems(JoinStep(source, on), target, st);
    e :| e in target && st in JoinStep(source, on)(e);
    MatchesElems(e.row, source, on, s);
  }

  /** Each source row is in exactly one of the joined rows and the source-only rows. */
  lemma StagingPartition<V>(target: seq<Entry<V>>, source: seq<Row<V>>, on: On<V>, s: Row<V>)
    requires s in source
    ensures s in SOnly(target, source, on) <==> !JoinedIn(TSet(target, source, on), s)
  {
    SOnlyElems(target, source, on, s);
    hide TSet, SOnly;
    if i :| 0 <= i < |target| && on(target[i].row, s) { JoinsMatched(target, source, on, s, target[i]); }
    if JoinedIn(TSet(target, source, on), s) { var e := JoinedMatches(target, source, on, s); }
  }

  lemma {:induction false} NoMatches<V>(t: Row<V>, source: seq<Row<V>>, on: On<V>)
    requires forall i :: 0 <= i < |source| ==> !on(t, source[i])
    ensures Matches(t, source, on) == []
    decreases |source|
  {
    if source != [] { NoMatches(t, source[1..], on); }
  }

  lemma {:induction false} FewMatches<V>(t: Row<V>, source: seq<Row<V>>, on: On<V>)
    requires forall i, j :: 0 <= i < j < |source| ==> !(on(t, source[i]) && on(t, source[j]))
    ensures |Matches(t, source, on)| <= 1
    decreases |source|
  {
    if source != [] {
      if on(t, source[0]) {
        assert forall i :: 0 <= i < |source| - 1 ==> !on(t, source[1..][i]);
        NoMatches(t, source[1..], on);
      } else {
        FewMatches(t, source[1..], on);
      }
    }
  }

  /** One staged row per target row, in the same order. */
  ghost predicate Stages<V>(tset: seq<Staged<V>>, target: seq<Entry<V>>) {
    && |tset| == |target|
    && forall i :: 0 <= i < |target| ==> tset[i].rowid == target[i].rowid && tset[i].t == target[i].row
  }

  lemma {:induction false} StagedOnce<V>(target: seq<Entry<V>>, source: seq<Row<V>>, on: On<V>)
    requires AtMostOneMatch(target, source, on)
    ensures Stages(TSet(target, source, on), target)
    decreases |target|
  {
    if target != [] {
      var e := target[0];
      assert e in target;
      FewMatches(e.row, source, on);
      StagedOnce(target[1..], source, on);
    }
  }

  lemma {:induction false} MoreMatches<V>(t: Row<V>, source: seq<Row<V>>, on: On<V>, j: nat)
    requires j < |source| && on(t, source[j])
    ensures |Matches(t, source, on)| >= 1
    ensures (exists i :: 0 <= i < j && on(t, source[i])) ==> |Matches(t, source, on)| >= 2
    decreases j
  {
    if j > 0 {
      MoreMatches(t, source[1..], on, j - 1);
      assert (exists i :: 1 <= i < j && on(t, source[i])) ==> exists i :: 0 <= i < j - 1 && on(t, source[1..][i]) by {
        if i :| 1 <= i < j && on(t, source[i]) { assert source[1..][i - 1] == source[i]; }
      }
    }
  }

  lemma {:induction false} StagedAtLeast<V>(target: seq<Entry<V>>, source: seq<Row<V>>, on: On<V>)
    ensures |TSet(target, source, on)| >= |target|
    ensures |TSet(target, source, on)| == |target| ==>
              forall e :: e in target ==> |Matches(e.row, source, on)| <= 1
    decreases |target|
  {
    if target != [] {
      StagedAtLeast(target[1..], source, on);
      assert TSet(target, source, on) == JoinStep(source, on)(target[0]) + TSet(target[1..], source, on);
      assert target == [target[0]] + target[1..];
    }
  }

  /** The restriction on matches is exactly that the join stages every target row once. */
  lemma StagedOnceIff<V>(target: seq<Entry<V>>, source: seq<Row<V>>, on: On<V>)
    ensures AtMostOneMatch(target, source, on) <==> |TSet(target, source, on)| == |target|
  {
    if AtMostOneMatch(target, source, on) {
      StagedOnce(target, source, on);
    } else {
      StagedAtLeast(target, source, on);
      var e, i, j :| e in target && 0 <= i < j < |source| && on(e.row, source[i]) && on(e.row, source[j]);
      MoreMatches(e.row, source, on, j);
    }
  }

  // ----- one statement -----

  predicate DistinctStaged<V>(tset: seq<Staged<V>>) {
    forall i, j :: 0 <= i < j < |tset| ==> tset[i].rowid != tset[j].rowid
  }

  lemma {:induction false} LastFiringOnly<V>(stmt: Stmt<V>, tset: seq<Staged<V>>, rowid: nat)
    ensures match LastFiring(stmt, tset, rowid)
            case None => forall st :: st in tset && st.rowid == rowid ==> !Fires(stmt, st)
            case Some(st) => st in tset && st.rowid == rowid && Fires(stmt, st)
    decreases |tset|
  {
    if tset != [] {
      LastFiringOnly(stmt, tset[..|tset| - 1], rowid);
      assert tset == tset[..|tset| - 1] + [tset[|tset| - 1]];
    }
  }

  /** Among several staged rows of one target row it is the last that passes the filter which decides. */
  lemma {:induction false} LastFiringIs<V>(stmt: Stmt<V>, tset: seq<Staged<V>>, rowid: nat, k: nat)
    requires k < |tset| && tset[k].rowid == rowid && Fires(stmt, tset[k])
    requires forall j :: k < j < |tset| && tset[j].rowid == rowid ==> !Fires(stmt, tset[j])
    ensures LastFiring(stmt, tset, rowid) == Some(tset[k])
    decreases |tset|
  {
    if k < |tset| - 1 { LastFiringIs(stmt, tset[..|tset| - 1], rowid, k); }
  }

  lemma {:induction false} NoneFiring<V>(stmt: Stmt<V>, tset: seq<Staged<V>>, rowid: nat)
    requires forall st :: st in tset && st.rowid == rowid ==> !Fires(stmt, st)
    ensures LastFiring(stmt, tset, rowid).None?
    decreases |tset|
  {
    if tset != [] { NoneFiring(stmt, tset[..|tset| - 1], rowid); }
  }

  lemma FirstFiringSnoc<V>(stmts: seq<Stmt<V>>, stmt: Stmt<V>, st: Staged<V>)
    ensures FirstFiring(stmts + [stmt], st) ==
      if FirstFiring(stmts, st).Some? then FirstFiring(stmts, st)
      else if Fires(stmt, st) then Some(stmt) else None
  {
    assert (stmts + [stmt])[..|stmts|] == stmts;
  }

  lemma FirstInsertSnoc<V>(stmts: seq<Stmt<V>>, stmt: Stmt<V>, s: Row<V>)
    ensures FirstInsert(stmts + [stmt], s) ==
      if FirstInsert(stmts, s).Some? then FirstInsert(stmts, s)
      else if FiresForSource(stmt, s) then Some(stmt) else None
  {
    assert (stmts + [stmt])[..|stmts|] == stmts;
  }

  /** Some clause decides for a row exactly when one fires for it, and that one fires. */
  lemma {:induction false} FirstFiringFires<V>(stmts: seq<Stmt<V>>, st: Staged<V>)
    ensures FirstFiring(stmts, st).Some? <==> exists i :: 0 <= i < |stmts| && Fires(stmts[i], st)
    ensures FirstFiring(stmts, st).Some? ==>
      FirstFiring(stmts, st).value in stmts && Fires(FirstFiring(stmts, st).value, st)
    decreases |stmts|
  {
    if stmts != [] {
      var n := |stmts| - 1;
      FirstFiringFires(stmts[..n], st);
      assert forall i :: 0 <= i < n ==> stmts[..n][i] == stmts[i];
    }
  }

  lemma {:induction false} FirstInsertFires<V>(stmts: seq<Stmt<V>>, s: Row<V>)
    ensures FirstInsert(stmts, s).Some? <==> exists i :: 0 <= i < |stmts| && FiresForSource(stmts[i], s)
    ensures FirstInsert(stmts, s).Some? ==>
      FirstInsert(stmts, s).value in stmts && FiresForSource(FirstInsert(stmts, s).value, s)
    decreases |stmts|
  {
    if stmts != [] {
      var n := |stmts| - 1;
      FirstInsertFires(stmts[..n], s);
      assert forall i :: 0 <= i < n ==> stmts[..n][i] == stmts[i];
    }
  }

  ghost predicate NewClause<V>(stmts: seq<Stmt<V>>, stmt: Stmt<V>, tset: seq<Staged<V>>, sonly: seq<Row<V>>) {
    && (forall st :: st in tset && Fires(stmt, st) ==> FirstFiring(stmts, st).None?)
    && (forall s :: s in sonly && FiresForSource(stmt, s) ==> FirstInsert(stmts, s).None?)
  }

  lemma DisjointNewClause<V>(stmts: seq<Stmt<V>>, k: nat, tset: seq<Staged<V>>, sonly: seq<Row<V>>)
    requires Disjoint(stmts, tset, sonly) && k < |stmts|
    ensures NewClause(stmts[..k], stmts[k], tset, sonly)
  {
    assert forall i :: 0 <= i < k ==> stmts[..k][i] == stmts[i];
    forall st | st in tset && Fires(stmts[k], st) ensures FirstFiring(stmts[..k], st).None? {
      FirstFiringFires(stmts[..k], st);
    }
    forall s | s in sonly && FiresForSource(stmts[k], s) ensures FirstInsert(stmts[..k], s).None? {
      FirstInsertFires(stmts[..k], s);
    }
  }

  lemma StagedById<V>(tset: seq<Staged<V>>, a: Staged<V>, b: Staged<V>)
    requires DistinctStaged(tset) && a in tset && b in tset && a.rowid == b.rowid
    ensures a == b
  {
    var i :| 0 <= i < |tset| && tset[i] == a;
    var j :| 0 <= j < |tset| && tset[j] == b;
    assert i == j;
  }

  /** An UPDATE or DELETE turns the row left by the earlier clauses into the row left by all of them. */
  lemma EffectOnOutcome<V>(stmts: seq<Stmt<V>>, stmt: Stmt<V>, tset: seq<Staged<V>>, sonly: seq<Row<V>>, st: Staged<V>)
    requires DistinctStaged(tset) && st in tset && NewClause(stmts, stmt, tset, sonly)
    ensures FlatMap(Effect(stmt, tset), Outcome(stmts)(st)) == Outcome(stmts + [stmt])(st)
  {
    FirstFiringSnoc(stmts, stmt, st);
    LastFiringOnly(stmt, tset, st.rowid);
    if LastFiring(stmt, tset, st.rowid).Some? {
      StagedById(tset, st, LastFiring(stmt, tset, st.rowid).value);
    }
    var left := Outcome(stmts)(st);
    if left == [] {
      assert FlatMap(Effect(stmt, tset), left) == [];
    } else {
      assert left == [left[0]] && left[0].rowid == st.rowid;
      FlatMapSnoc(Effect(stmt, tset), [], left[0]);
      assert [] + [left[0]] == left;
    }
  }

  lemma {:induction false} EffectOnOutcomes<V>(stmts: seq<Stmt<V>>, stmt: Stmt<V>, tset: seq<Staged<V>>,
      sonly: seq<Row<V>>, part: seq<Staged<V>>)
    requires DistinctStaged(tset) && NewClause(stmts, stmt, tset, sonly)
    requires forall st :: st in part ==> st in tset
    ensures FlatMap(Effect(stmt, tset), FlatMap(Outcome(stmts), part)) == FlatMap(Outcome(stmts + [stmt]), part)
    decreases |part|
  {
    if part != [] {
      EffectOnOutcomes(stmts, stmt, tset, sonly, part[1..]);
      EffectOnOutcome(stmts, stmt, tset, sonly, part[0]);
      FlatMapConcat(Effect(stmt, tset), Outcome(stmts)(part[0]), FlatMap(Outcome(stmts), part[1..]));
    }
  }

  /** Inserted rows only reuse rowids that earlier clauses have freed. */
  ghost predicate OnFreedIds<V>(stmts: seq<Stmt<V>>, tset: seq<Staged<V>>, inserted: seq<Entry<V>>) {
    forall st, e :: st in tset && e in inserted && st.rowid == e.rowid ==> Outcome(stmts)(st) == []
  }

  lemma EffectOnInsertedOne<V>(stmts: seq<Stmt<V>>, stmt: Stmt<V>, tset: seq<Staged<V>>, sonly: seq<Row<V>>,
      inserted: seq<Entry<V>>, e: Entry<V>)
    requires NewClause(stmts, stmt, tset, sonly) && OnFreedIds(stmts, tset, inserted) && e in inserted
    ensures Effect(stmt, tset)(e) == [e]
  {
    forall st | st in tset && st.rowid == e.rowid ensures !Fires(stmt, st) {
      assert Outcome(stmts)(st) == [];
      assert FirstFiring(stmts, st).Some?;
    }
    NoneFiring(stmt, tset, e.rowid);
  }

  /** So no later UPDATE or DELETE touches them. */
  lemma {:induction false} EffectOnInserted<V>(stmts: seq<Stmt<V>>, stmt: Stmt<V>, tset: seq<Staged<V>>,
      sonly: seq<Row<V>>, inserted: seq<Entry<V>>, part: seq<Entry<V>>)
    requires NewClause(stmts, stmt, tset, sonly) && OnFreedIds(stmts, tset, inserted)
    requires forall e :: e in part ==> e in inserted
    ensures FlatMap(Effect(stmt, tset), part) == part
    decreases |part|
  {
    if part != [] {
      assert forall x :: x in part[1..] ==> x in part;
      EffectOnInserted(stmts, stmt, tset, sonly, inserted, part[1..]);
      EffectOnInsertedOne(stmts, stmt, tset, sonly, inserted, part[0]);
      hide NewClause, OnFreedIds, Effect;
      assert part == [part[0]] + part[1..];
    }
  }

  lemma FreedStaysFreed<V>(stmts: seq<Stmt<V>>, stmt: Stmt<V>, tset: seq<Staged<V>>, inserted: seq<Entry<V>>)
    requires OnFreedIds(stmts, tset, inserted)
    ensures OnFreedIds(stmts + [stmt], tset, inserted)
  {
    forall st, e | st in tset && e in inserted && st.rowid == e.rowid ensures Outcome(stmts + [stmt])(st) == [] {
      assert Outcome(stmts)(st) == [];
      FirstFiringSnoc(stmts, stmt, st);
    }
  }

  /** An INSERT adds, as a bag, the rows of the source rows it is the first to fire for. */
  lemma {:induction false} InsertOutcomes<V>(stmts: seq<Stmt<V>>, stmt: Stmt<V>, tset: seq<Staged<V>>,
      sonly: seq<Row<V>>, part: seq<Row<V>>)
    requires NewClause(stmts, stmt, tset, sonly) && forall s :: s in part ==> s in sonly
    ensures multiset(FlatMap(InsertOutcome(stmts + [stmt]), part))
         == multiset(FlatMap(InsertOutcome(stmts), part)) + multiset(FlatMap(InsertStep(stmt), part))
    decreases |part|
  {
    if part != [] {
      InsertOutcomes(stmts, stmt, tset, sonly, part[1..]);
      InsertOutcomeOne(stmts, stmt, tset, sonly, part[0]);
    }
  }

  lemma InsertOutcomeOne<V>(stmts: seq<Stmt<V>>, stmt: Stmt<V>, tset: seq<Staged<V>>, sonly: seq<Row<V>>, s: Row<V>)
    requires NewClause(stmts, stmt, tset, sonly) && s in sonly
    ensures multiset(InsertOutcome(stmts + [stmt])(s))
      == multiset(InsertOutcome(stmts)(s)) + multiset(InsertStep(stmt)(s))
  {
    FirstInsertSnoc(stmts, stmt, s);
  }

  // ----- whole runs -----

  /** The table after the first clauses: what they left of the target, and what they inserted. */
  ghost predicate After<V>(stmts: seq<Stmt<V>>, tset: seq<Staged<V>>, sonly: seq<Row<V>>, table: seq<Entry<V>>,
      inserted: seq<Entry<V>>) {
    && table == FlatMap(Outcome(stmts), tset) + inserted
    && multiset(RowsOf(inserted)) == multiset(FlatMap(InsertOutcome(stmts), sonly))
    && OnFreedIds(stmts, tset, inserted)
  }

  lemma AfterChange<V>(stmts: seq<Stmt<V>>, stmt: Stmt<V>, tset: seq<Staged<V>>, sonly: seq<Row<V>>,
      pre: seq<Entry<V>>, inserted: seq<Entry<V>>, post: seq<Entry<V>>)
    requires DistinctStaged(tset) && NewClause(stmts, stmt, tset, sonly) && !stmt.InsertSelect?
    requires After(stmts, tset, sonly, pre, inserted) && Executes(stmt, tset, sonly, pre, post)
    ensures After(stmts + [stmt], tset, sonly, post, inserted)
  {
    FlatMapConcat(Effect(stmt, tset), FlatMap(Outcome(stmts), tset), inserted);
    EffectOnOutcomes(stmts, stmt, tset, sonly, tset);
    EffectOnInserted(stmts, stmt, tset, sonly, inserted, inserted);
    FreedStaysFreed(stmts, stmt, tset, inserted);
    InsertOutcomes(stmts, stmt, tset, sonly, sonly);
    NoInserts(stmt, sonly);
  }

  lemma NoInsert<V>(stmt: Stmt<V>, s: Row<V>)
    requires !stmt.InsertSelect?
    ensures InsertStep(stmt)(s) == []
  {
    assert !FiresForSource(stmt, s);
    assert |InsertStep(stmt)(s)| == 0;
  }

  lemma {:induction false} NoInserts<V>(stmt: Stmt<V>, sonly: seq<Row<V>>)
    requires !stmt.InsertSelect?
    ensures FlatMap(InsertStep(stmt), sonly) == []
    decreases |sonly|
  {
    if sonly != [] {
      NoInserts(stmt, sonly[1..]);
      NoInsert(stmt, sonly[0]);
    }
  }

  lemma {:induction false} OutcomesKept<V>(stmts: seq<Stmt<V>>, stmt: Stmt<V>, part: seq<Staged<V>>)
    requires stmt.InsertSelect?
    ensures FlatMap(Outcome(stmts + [stmt]), part) == FlatMap(Outcome(stmts), part)
    decreases |part|
  {
    if part != [] {
      OutcomesKept(stmts, stmt, part[1..]);
      FirstFiringSnoc(stmts, stmt, part[0]);
    }
  }

  lemma StillThere<V>(stmts: seq<Stmt<V>>, tset: seq<Staged<V>>, st: Staged<V>)
    requires st in tset
    ensures Outcome(stmts)(st) == [] || exists e :: e in FlatMap(Outcome(stmts), tset) && e.rowid == st.rowid
  {
    var left := Outcome(stmts)(st);
    if left != [] {
      FlatMapElems(Outcome(stmts), tset, left[0]);
      assert left[0].rowid == st.rowid;
    }
  }

  /** A rowid that is free in the table belongs to no target row, or to one that is gone. */
  lemma FreshIdFreed<V>(stmts: seq<Stmt<V>>, tset: seq<Staged<V>>, table: seq<Entry<V>>, st: Staged<V>)
    requires st in tset && forall e :: e in FlatMap(Outcome(stmts), tset) ==> e in table
    requires forall e :: e in table ==> e.rowid != st.rowid
    ensures Outcome(stmts)(st) == []
  {
    StillThere(stmts, tset, st);
  }

  lemma AddedOnFreed<V>(stmts: seq<Stmt<V>>, tset: seq<Staged<V>>, pre: seq<Entry<V>>, post: seq<Entry<V>>,
      inserted: seq<Entry<V>>)
    requires |pre| <= |post| && post[..|pre|] == pre && DistinctIds(post)
    requires pre == FlatMap(Outcome(stmts), tset) + inserted && OnFreedIds(stmts, tset, inserted)
    ensures OnFreedIds(stmts, tset, inserted + post[|pre|..])
  {
    hide FlatMap, Outcome;
    forall st, e | st in tset && e in inserted + post[|pre|..] && st.rowid == e.rowid ensures Outcome(stmts)(st) == [] {
      if e !in inserted {
        var j :| |pre| <= j < |post| && post[j] == e;
        forall x | x in pre ensures x.rowid != st.rowid {
          var i :| 0 <= i < |pre| && pre[i] == x;
          assert post[i] == x;
        }
        FreshIdFreed(stmts, tset, pre, st);
      }
    }
  }

  lemma AfterInsert<V>(stmts: seq<Stmt<V>>, stmt: Stmt<V>, tset: seq<Staged<V>>, sonly: seq<Row<V>>,
      pre: seq<Entry<V>>, inserted: seq<Entry<V>>, post: seq<Entry<V>>)
    requires NewClause(stmts, stmt, tset, sonly) && stmt.InsertSelect?
    requires After(stmts, tset, sonly, pre, inserted) && Executes(stmt, tset, sonly, pre, post)
    ensures After(stmts + [stmt], tset, sonly, post, inserted + post[|pre|..])
  {
    hide FlatMap, Outcome, DistinctIds, InsertStep, InsertOutcome, NewClause, OnFreedIds, RowsOf;
    var added := post[|pre|..];
    AddedOnFreed(stmts, tset, pre, post, inserted);
    FreedStaysFreed(stmts, stmt, tset, inserted + added);
    OutcomesKept(stmts, stmt, tset);
    InsertOutcomes(stmts, stmt, tset, sonly, sonly);
    RowsOfConcat(inserted, added);
    assert post == pre + added;
    Regroup(FlatMap(Outcome(stmts), tset), inserted, added);
  }

  lemma Regroup<T>(a: seq<T>, b: seq<T>, c: seq<T>)
    ensures a + b + c == a + (b + c)
  {}

  lemma RowsOfConcat<V>(a: seq<Entry<V>>, b: seq<Entry<V>>)
    ensures RowsOf(a + b) == RowsOf(a) + RowsOf(b)
    ensures multiset(RowsOf(a + b)) == multiset(RowsOf(a)) + multiset(RowsOf(b))
  {
    assert RowsOf(a + b) == RowsOf(a) + RowsOf(b);
  }

  lemma NoClause<V>(st: Staged<V>, s: Row<V>)
    ensures Outcome<V>([])(st) == [Entry(st.rowid, st.t)] && InsertOutcome<V>([])(s) == []
  {
    assert FirstFiring<V>([], st) == None && FirstInsert<V>([], s) == None;
  }

  lemma {:induction false} Untouched<V>(tset: seq<Staged<V>>, target: seq<Entry<V>>)
    requires Stages(tset, target)
    ensures FlatMap(Outcome([]), tset) == target
    decreases |tset|
  {
    if tset != [] {
      Untouched(tset[1..], target[1..]);
      NoClause(tset[0], map[]);
      assert target == [target[0]] + target[1..];
    }
  }

  lemma {:induction false} NoClauseInserts<V>(sonly: seq<Row<V>>)
    ensures FlatMap(InsertOutcome<V>([]), sonly) == []
    decreases |sonly|
  {
    if sonly != [] {
      NoClauseInserts(sonly[1..]);
      NoClause(Staged(0, map[], None), sonly[0]);
    }
  }

  lemma {:induction false} RunAfter<V>(stmts: seq<Stmt<V>>, target: seq<Entry<V>>, tset: seq<Staged<V>>,
      sonly: seq<Row<V>>, trace: seq<seq<Entry<V>>>, k: nat) returns (inserted: seq<Entry<V>>)
    requires Stages(tset, target) && DistinctStaged(tset) && Disjoint(stmts, tset, sonly)
    requires Run(stmts, tset, sonly, trace) && trace[0] == target && k <= |stmts|
    ensures After(stmts[..k], tset, sonly, trace[k], inserted)
    decreases k
  {
    if k == 0 {
      inserted := [];
      Untouched(tset, target);
      NoClauseInserts(sonly);
      assert target + [] == target;
    } else {
      var before := RunAfter(stmts, target, tset, sonly, trace, k - 1);
      DisjointNewClause(stmts, k - 1, tset, sonly);
      assert stmts[..k] == stmts[..k - 1] + [stmts[k - 1]];
      assert Executes(stmts[k - 1], tset, sonly, trace[k - 1], trace[k]);
      if stmts[k - 1].InsertSelect? {
        AfterInsert(stmts[..k - 1], stmts[k - 1], tset, sonly, trace[k - 1], before, trace[k]);
        inserted := before + trace[k][|trace[k - 1]|..];
      } else {
        AfterChange(stmts[..k - 1], stmts[k - 1], tset, sonly, trace[k - 1], before, trace[k]);
        inserted := before;
      }
    }
  }

  /** Under the restrictions a run of statements does for every staged row what the first firing one does. */
  lemma RunIsSimultaneous<V>(target: seq<Entry<V>>, source: seq<Row<V>>, on: On<V>, stmts: seq<Stmt<V>>,
      trace: seq<seq<Entry<V>>>)
    requires DistinctIds(target) && AtMostOneMatch(target, source, on)
    requires Disjoint(stmts, TSet(target, source, on), SOnly(target, source, on))
    requires Run(stmts, TSet(target, source, on), SOnly(target, source, on), trace) && trace[0] == target
    ensures multiset(RowsOf(trace[|stmts|]))
         == multiset(Simultaneous(stmts, TSet(target, source, on), SOnly(target, source, on)))
  {
    var tset, sonly := TSet(target, source, on), SOnly(target, source, on);
    StagedOnce(target, source, on);
    var inserted := RunAfter(stmts, target, tset, sonly, trace, |stmts|);
    assert stmts[..|stmts|] == stmts;
    hide FlatMap, Outcome, InsertOutcome, RowsOf, OnFreedIds, TSet, SOnly, Run;
    RowsOfConcat(FlatMap(Outcome(stmts), tset), inserted);
  }

  // ----- the statements do what their clauses say -----

  /** The error cases are the unsupported combinations. */
  lemma WhenSupported<V>(w: When<V>)
    ensures WhenStatement(w).Some? <==> Supported(w)
  {}

  /** A statement's filter on the staging tables selects the rows its clause applies to. */
  lemma WhenFires<V>(w: When<V>, st: Staged<V>, s: Row<V>)
    requires WhenStatement(w).Some?
    ensures Fires(WhenStatement(w).value, st) <==> Applies(w, Pair(Some(st.t), st.s))
    ensures FiresForSource(WhenStatement(w).value, s) <==> Applies(w, Pair(None, Some(s)))
  {}

  lemma {:induction false} StatementsAt<V>(whens: seq<When<V>>)
    ensures Statements(whens).Some? <==> forall i :: 0 <= i < |whens| ==> Supported(whens[i])
    ensures Statements(whens).Some? ==>
      && |Statements(whens).value| == |whens|
      && forall i :: 0 <= i < |whens| ==> WhenStatement(whens[i]) == Some(Statements(whens).value[i])
    decreases |whens|
  {
    if whens != [] {
      var n := |whens| - 1;
      StatementsAt(whens[..n]);
      WhenSupported(whens[n]);
      hide WhenStatement, Supported;
      assert forall i :: 0 <= i < n ==> whens[..n][i] == whens[i];
    }
  }

  lemma {:induction false} FirstWhenSnoc<V>(whens: seq<When<V>>, w: When<V>, p: Pair<V>)
    ensures FirstWhen(whens + [w], p) ==
      if FirstWhen(whens, p).Some? then FirstWhen(whens, p) else if Applies(w, p) then Some(w) else None
    decreases |whens|
  {
    hide Applies;
    if whens == [] {
      assert [w][1..] == [];
    } else {
      assert (whens + [w])[1..] == whens[1..] + [w];
      FirstWhenSnoc(whens[1..], w, p);
    }
  }

  /** The first statement that fires is the statement of the first clause that applies. */
  lemma {:induction false} FirstAgrees<V>(whens: seq<When<V>>, st: Staged<V>, s: Row<V>)
    requires Statements(whens).Some?
    ensures var stmts, w := Statements(whens).value, FirstWhen(whens, Pair(Some(st.t), st.s));
      && (w.Some? ==> WhenStatement(w.value).Some?)
      && FirstFiring(stmts, st) == if w.None? then None else WhenStatement(w.value)
    ensures var stmts, w := Statements(whens).value, FirstWhen(whens, Pair(None, Some(s)));
      && (w.Some? ==> WhenStatement(w.value).Some?)
      && FirstInsert(stmts, s) == if w.None? then None else WhenStatement(w.value)
    decreases |whens|
  {
    if whens != [] {
      var n := |whens| - 1;
      var init, w := whens[..n], whens[n];
      FirstAgrees(init, st, s);
      assert whens == init + [w];
      FirstWhenSnoc(init, w, Pair(Some(st.t), st.s));
      FirstWhenSnoc(init, w, Pair(None, Some(s)));
      WhenFires(w, st, s);
      var stmts, stmt := Statements(init).value, WhenStatement(w).value;
      assert Statements(whens) == Some(stmts + [stmt]) && WhenStatement(w) == Some(stmt);
      FirstFiringSnoc(stmts, stmt, st);
      FirstInsertSnoc(stmts, stmt, s);
      hide FirstWhen, FirstFiring, FirstInsert, Fires, FiresForSource, Applies, WhenStatement, Statements;
    }
  }

  /** The row left under a rowid. */
  function Kept<V>(rowid: nat, r: Option<Row<V>>): seq<Entry<V>> {
    if r.None? then [] else [Entry(rowid, r.value)]
  }

  lemma FirstWhenSupported<V>(whens: seq<When<V>>, p: Pair<V>)
    requires Statements(whens).Some? && FirstWhen(whens, p).Some?
    ensures Supported(FirstWhen(whens, p).value) && Applies(FirstWhen(whens, p).value, p)
  {
    StatementsAt(whens);
    var i := FirstWhenAt(whens, p);
  }

  lemma {:induction false} FirstWhenAt<V>(whens: seq<When<V>>, p: Pair<V>) returns (i: nat)
    requires FirstWhen(whens, p).Some?
    ensures i < |whens| && whens[i] == FirstWhen(whens, p).value && Applies(whens[i], p)
    ensures forall j :: 0 <= j < i ==> !Applies(whens[j], p)
    decreases |whens|
  {
    hide Applies;
    if Applies(whens[0], p) {
      i := 0;
    } else {
      var j := FirstWhenAt(whens[1..], p);
      i := j + 1;
    }
  }

  lemma OutcomeIsDecided<V>(whens: seq<When<V>>, st: Staged<V>)
    requires Statements(whens).Some?
    ensures Outcome(Statements(whens).value)(st) == Kept(st.rowid, Decided(whens, st.t, Pair(Some(st.t), st.s)))
  {
    var p := Pair(Some(st.t), st.s);
    FirstAgrees(whens, st, st.t);
    hide Statements, FirstFiring;
    if FirstWhen(whens, p).Some? { FirstWhenSupported(whens, p); }
  }

  lemma InsertIsDecided<V>(whens: seq<When<V>>, s: Row<V>)
    requires Statements(whens).Some?
    ensures InsertOutcome(Statements(whens).value)(s) == Inserted(whens, s)
  {
    var p := Pair(None, Some(s));
    FirstAgrees(whens, Staged(0, s, None), s);
    hide Statements, FirstInsert;
    if FirstWhen(whens, p).Some? { FirstWhenSupported(whens, p); }
  }

  lemma {:induction false} OneMatch<V>(t: Row<V>, source: seq<Row<V>>, on: On<V>)
    requires forall i, j :: 0 <= i < j < |source| ==> !(on(t, source[i]) && on(t, source[j]))
    ensures Matches(t, source, on) == Listed(MatchOf(t, source, on))
    decreases |source|
  {
    if source != [] {
      if on(t, source[0]) {
        assert forall i :: 0 <= i < |source| - 1 ==> !on(t, source[1..][i]);
        NoMatches(t, source[1..], on);
      } else {
        OneMatch(t, source[1..], on);
      }
    }
  }

  /** A target row is staged once, with its match. */
  lemma JoinsOnce<V>(e: Entry<V>, source: seq<Row<V>>, on: On<V>)
    requires forall i, j :: 0 <= i < j < |source| ==> !(on(e.row, source[i]) && on(e.row, source[j]))
    ensures JoinStep(source, on)(e) == [Staged(e.rowid, e.row, MatchOf(e.row, source, on))]
  {
    OneMatch(e.row, source, on);
    hide Matches, MatchOf;
    var m := MatchOf(e.row, source, on);
    if m.Some? {
      assert Matches(e.row, source, on) == [m.value];
      assert |JoinStep(source, on)(e)| == 1;
    }
  }

  lemma StagedWithMatch<V>(target: seq<Entry<V>>, source: seq<Row<V>>, on: On<V>, st: Staged<V>) returns (e: Entry<V>)
    requires AtMostOneMatch(target, source, on) && st in TSet(target, source, on)
    ensures e in target && st == Staged(e.rowid, e.row, MatchOf(e.row, source, on))
  {
    FlatMapElems(JoinStep(source, on), target, st);
    e :| e in target && st in JoinStep(source, on)(e);
    JoinsOnce(e, source, on);
  }

  lemma InRowsOf<V>(target: seq<Entry<V>>, e: Entry<V>)
    requires e in target
    ensures e.row in RowsOf(target)
  {
    var i :| 0 <= i < |target| && target[i] == e;
    assert RowsOf(target)[i] == e.row;
  }

  lemma UnmatchedRows<V>(target: seq<Entry<V>>, source: seq<Row<V>>, on: On<V>, s: Row<V>)
    ensures s in SOnly(target, source, on) <==> s in source && Unmatched(s, RowsOf(target), on)
  {
    SOnlyElems(target, source, on, s);
    hide SOnly;
    assert forall i :: 0 <= i < |target| ==> RowsOf(target)[i] == target[i].row;
  }

  lemma DisjointOnTarget<V>(whens: seq<When<V>>, target: seq<Entry<V>>, source: seq<Row<V>>, on: On<V>,
      st: Staged<V>, i: nat, j: nat)
    requires AtMostOneMatch(target, source, on) && DisjointWhens(whens, RowsOf(target), source, on)
    requires st in TSet(target, source, on) && i < j < |whens|
    ensures !(Applies(whens[i], Pair(Some(st.t), st.s)) && Applies(whens[j], Pair(Some(st.t), st.s)))
  {
    hide TSet, Applies, RowsOf, MatchOf, Unmatched, AtMostOneMatch;
    var e := StagedWithMatch(target, source, on, st);
    InRowsOf(target, e);
  }

  lemma DisjointOnSource<V>(whens: seq<When<V>>, target: seq<Entry<V>>, source: seq<Row<V>>, on: On<V>, s: Row<V>,
      i: nat, j: nat)
    requires DisjointWhens(whens, RowsOf(target), source, on) && s in SOnly(target, source, on) && i < j < |whens|
    ensures !(Applies(whens[i], Pair(None, Some(s))) && Applies(whens[j], Pair(None, Some(s))))
  {
    UnmatchedRows(target, source, on, s);
    hide SOnly, Applies, RowsOf, MatchOf, Unmatched;
  }

  lemma DisjointStatements<V>(whens: seq<When<V>>, target: seq<Entry<V>>, source: seq<Row<V>>, on: On<V>)
    requires Statements(whens).Some? && AtMostOneMatch(target, source, on)
    requires DisjointWhens(whens, RowsOf(target), source, on)
    ensures Disjoint(Statements(whens).value, TSet(target, source, on), SOnly(target, source, on))
  {
    var stmts := Statements(whens).value;
    StatementsAt(whens);
    hide Statements, WhenStatement, TSet, SOnly, Fires, FiresForSource, Applies, RowsOf, AtMostOneMatch, DisjointWhens;
    forall i, j, st | 0 <= i < j < |stmts| && st in TSet(target, source, on)
      ensures !(Fires(stmts[i], st) && Fires(stmts[j], st))
    {
      DisjointOnTarget(whens, target, source, on, st, i, j);
      WhenFires(whens[i], st, st.t);
      WhenFires(whens[j], st, st.t);
    }
    forall i, j, s | 0 <= i < j < |stmts| && s in SOnly(target, source, on)
      ensures !(FiresForSource(stmts[i], s) && FiresForSource(stmts[j], s))
    {
      DisjointOnSource(whens, target, source, on, s, i, j);
      WhenFires(whens[i], Staged(0, s, None), s);
      WhenFires(whens[j], Staged(0, s, None), s);
    }
  }

  lemma OneTarget<V>(whens: seq<When<V>>, e: Entry<V>, source: seq<Row<V>>, on: On<V>)
    requires Statements(whens).Some?
    ensures var st := Staged(e.rowid, e.row, MatchOf(e.row, source, on));
      RowsOf(Outcome(Statements(whens).value)(st)) == TargetStep(whens, source, on)(e.row)
  {
    var st := Staged(e.rowid, e.row, MatchOf(e.row, source, on));
    OutcomeIsDecided(whens, st);
    hide Outcome, Statements, MatchOf, Decided;
    assert Pair(Some(st.t), st.s) == TargetPair(e.row, source, on);
    var d := Decided(whens, e.row, TargetPair(e.row, source, on));
    assert RowsOf(Kept(e.rowid, d)) == Listed(d);
  }

  lemma {:induction false} TargetsDecided<V>(whens: seq<When<V>>, target: seq<Entry<V>>, source: seq<Row<V>>, on: On<V>)
    requires Statements(whens).Some? && AtMostOneMatch(target, source, on)
    ensures RowsOf(FlatMap(Outcome(Statements(whens).value), TSet(target, source, on)))
      == FlatMap(TargetStep(whens, source, on), RowsOf(target))
    decreases |target|
  {
    var f := Outcome(Statements(whens).value);
    if target != [] {
      var e, rest := target[0], target[1..];
      assert e in target && forall x :: x in rest ==> x in target;
      JoinsOnce(e, source, on);
      TargetsDecided(whens, rest, source, on);
      OneTarget(whens, e, source, on);
      var st := Staged(e.rowid, e.row, MatchOf(e.row, source, on));
      FlatMapHead(JoinStep(source, on), target);
      FlatMapConcat(f, [st], TSet(rest, source, on));
      OneFlatMap(f, st);
      RowsOfConcat(f(st), FlatMap(f, TSet(rest, source, on)));
      hide FlatMap, Outcome, TargetStep, JoinStep, MatchOf, Statements, AtMostOneMatch;
      assert RowsOf(target)[0] == e.row && RowsOf(target)[1..] == RowsOf(rest);
      FlatMapHead(TargetStep(whens, source, on), RowsOf(target));
    }
  }

  lemma OneFlatMap<A, B>(f: A -> seq<B>, x: A)
    ensures FlatMap(f, [x]) == f(x)
  {
    FlatMapSnoc(f, [], x);
    assert [] + [x] == [x] && FlatMap(f, []) == [];
  }

  lemma {:induction false} SourcesDecided<V>(whens: seq<When<V>>, target: seq<Entry<V>>, source: seq<Row<V>>, on: On<V>)
    requires Statements(whens).Some?
    ensures FlatMap(InsertOutcome(Statements(whens).value), SOnly(target, source, on))
      == FlatMap(SourceStep(whens, RowsOf(target), on), source)
    decreases |source|
  {
    if source != [] {
      SourcesDecided(whens, target, source[1..], on);
      var f, s := InsertOutcome(Statements(whens).value), source[0];
      SOnlyFirst(target, source, on);
      InsertIsDecided(whens, s);
      FlatMapHead(SourceStep(whens, RowsOf(target), on), source);
      hide FlatMap, SOnly, InsertOutcome, Inserted, Statements, RowsOf, Unmatched;
      if Unmatched(s, RowsOf(target), on) {
        FlatMapConcat(f, [s], SOnly(target, source[1..], on));
        OneFlatMap(f, s);
      }
    }
  }

  lemma SOnlyFirst<V>(target: seq<Entry<V>>, source: seq<Row<V>>, on: On<V>)
    requires source != []
    ensures SOnly(target, source, on)
      == if Unmatched(source[0], RowsOf(target), on) then [source[0]] + SOnly(target, source[1..], on)
         else SOnly(target, source[1..], on)
  {
    assert forall i :: 0 <= i < |target| ==> RowsOf(target)[i] == target[i].row;
  }

  /**
   When every target row matches at most one source row and no two clauses apply to the same row, any run of
   the emitted statements against the two snapshots, whatever rowids the inserts take, leaves the rows that
   GoogleSQL's MERGE leaves.
   */
  lemma MergeIsSimultaneous<V>(whens: seq<When<V>>, target: seq<Entry<V>>, source: seq<Row<V>>, on: On<V>,
      trace: seq<seq<Entry<V>>>)
    requires Statements(whens).Some? && DistinctIds(target)
    requires AtMostOneMatch(target, source, on) && DisjointWhens(whens, RowsOf(target), source, on)
    requires Run(Statements(whens).value, TSet(target, source, on), SOnly(target, source, on), trace)
    requires trace[0] == target
    ensures multiset(RowsOf(trace[|trace| - 1])) == multiset(MergeResult(whens, RowsOf(target), source, on))
  {
    DisjointStatements(whens, target, source, on);
    RunIsSimultaneous(target, source, on, Statements(whens).value, trace);
    TargetsDecided(whens, target, source, on);
    SourcesDecided(whens, target, source, on);
    hide Statements, FlatMap, TSet, SOnly, RowsOf, Outcome, InsertOutcome, TargetStep, SourceStep;
    hide DisjointWhens, AtMostOneMatch;
  }

  // ----- the order of the clauses -----

  /** Of clauses that do not overlap, the one that applies does not depend on their order. */
  lemma FirstWhenAnyOrder<V>(a: seq<When<V>>, b: seq<When<V>>, p: Pair<V>)
    requires forall i, j :: 0 <= i < j < |a| ==> !(Applies(a[i], p) && Applies(a[j], p))
    requires forall w :: w in a <==> w in b
    ensures FirstWhen(a, p) == FirstWhen(b, p)
  {
    hide Applies, FirstWhen;
    NoneApplies(a, p);
    NoneApplies(b, p);
    if FirstWhen(a, p).Some? {
      var i := FirstWhenAt(a, p);
      assert a[i] in b;
      var j := FirstWhenAt(b, p);
      assert b[j] in a;
      var k :| 0 <= k < |a| && a[k] == b[j];
      assert i == k;
    }
  }

  lemma {:induction false} NoneApplies<V>(whens: seq<When<V>>, p: Pair<V>)
    ensures FirstWhen(whens, p).None? <==> forall w :: w in whens ==> !Applies(w, p)
    decreases |whens|
  {
    hide Applies;
    if whens != [] { NoneApplies(whens[1..], p); }
  }

  lemma {:induction false} SameFlatMap<A, B>(f: A -> seq<B>, g: A -> seq<B>, s: seq<A>)
    requires forall x :: x in s ==> f(x) == g(x)
    ensures FlatMap(f, s) == FlatMap(g, s)
    decreases |s|
  {
    if s != [] { SameFlatMap(f, g, s[1..]); }
  }

  /** Any order of the same clauses, no two of which apply to the same row, has the same result. */
  lemma MergeAnyOrder<V>(a: seq<When<V>>, b: seq<When<V>>, target: seq<Row<V>>, source: seq<Row<V>>, on: On<V>)
    requires DisjointWhens(a, target, source, on) && forall w :: w in a <==> w in b
    ensures MergeResult(a, target, source, on) == MergeResult(b, target, source, on)
  {
    hide Applies, FirstWhen, MatchOf, Unmatched;
    forall t | t in target ensures TargetStep(a, source, on)(t) == TargetStep(b, source, on)(t) {
      FirstWhenAnyOrder(a, b, TargetPair(t, source, on));
    }
    forall s | s in source ensures SourceStep(a, target, on)(s) == SourceStep(b, target, on)(s) {
      if Unmatched(s, target, on) { FirstWhenAnyOrder(a, b, Pair(None, Some(s))); }
    }
    SameFlatMap(TargetStep(a, source, on), TargetStep(b, source, on), target);
    SameFlatMap(SourceStep(a, target, on), SourceStep(b, target, on), source);
  }

  // ----- clauses that overlap -----

  /** A target row after every clause that applies to it has acted in turn, as the statements do. */
  function InTurn<V>(whens: seq<When<V>>, row: Option<Row<V>>, p: Pair<V>): Option<Row<V>> {
    if whens == [] then row
    else TurnOf(whens[|whens| - 1], InTurn(whens[..|whens| - 1], row, p), p)
  }

  function TurnOf<V>(w: When<V>, row: Option<Row<V>>, p: Pair<V>): Option<Row<V>> {
    if row.None? || !Applies(w, p) then row else Act(w.action, row.value, p)
  }

  /** The clauses after the first that applies. */
  function Later<V>(whens: seq<When<V>>, p: Pair<V>): seq<When<V>> {
    if whens == [] then [] else if Applies(whens[0], p) then whens[1..] else Later(whens[1..], p)
  }

  /** The columns the applying clauses assign, each with the last value assigned to it. */
  function Overrides<V>(whens: seq<When<V>>, p: Pair<V>): Row<V> {
    if whens == [] then map[] else Overrides(whens[..|whens| - 1], p) + Assigned(whens[|whens| - 1], p)
  }

  function Assigned<V>(w: When<V>, p: Pair<V>): Row<V> {
    if Applies(w, p) && w.action.Update? then w.action.assign(p) else map[]
  }

  ghost predicate DeletesIn<V>(whens: seq<When<V>>, p: Pair<V>) {
    exists i :: 0 <= i < |whens| && Applies(whens[i], p) && whens[i].action.Delete?
  }

  /**
   The clause that decides is a DELETE, or no later clause that applies is one and the last value they
   assign to each column is the value the deciding UPDATE left in it.
   */
  ghost predicate Harmless<V>(whens: seq<When<V>>, t: Row<V>, p: Pair<V>) {
    match FirstWhen(whens, p)
    case None => true
    case Some(w) =>
      || w.action.Delete?
      || (!DeletesIn(Later(whens, p), p) &&
          forall c :: c in Overrides(Later(whens, p), p) ==>
            match Act(w.action, t, p)
            case None => true
            case Some(r) => c in r && r[c] == Overrides(Later(whens, p), p)[c])
  }

  predicate AllSupported<V>(whens: seq<When<V>>) { forall i :: 0 <= i < |whens| ==> Supported(whens[i]) }

  lemma {:induction false} InTurnConcat<V>(a: seq<When<V>>, b: seq<When<V>>, row: Option<Row<V>>, p: Pair<V>)
    ensures InTurn(a + b, row, p) == InTurn(b, InTurn(a, row, p), p)
    decreases |b|
  {
    hide TurnOf;
    if b == [] {
      assert a + b == a;
    } else {
      var n := |b| - 1;
      InTurnConcat(a, b[..n], row, p);
      assert (a + b)[..|a| + n] == a + b[..n];
    }
  }

  lemma {:induction false} InTurnFirst<V>(whens: seq<When<V>>, t: Row<V>, p: Pair<V>)
    ensures InTurn(whens, Some(t), p) == InTurn(Later(whens, p), Decided(whens, t, p), p)
    decreases |whens|
  {
    if whens != [] {
      var w, rest := whens[0], whens[1..];
      assert whens == [w] + rest;
      InTurnConcat([w], rest, Some(t), p);
      assert [w][..0] == [];
      assert InTurn([w], Some(t), p) == TurnOf(w, Some(t), p);
      if !Applies(w, p) { InTurnFirst(rest, t, p); }
      hide InTurn;
    }
  }

  lemma {:induction false} InTurnGone<V>(whens: seq<When<V>>, p: Pair<V>)
    ensures InTurn(whens, None, p) == None
    decreases |whens|
  {
    if whens != [] { InTurnGone(whens[..|whens| - 1], p); }
  }

  lemma {:induction false} InTurnOverrides<V>(whens: seq<When<V>>, r: Row<V>, p: Pair<V>)
    requires AllSupported(whens) && p.t.Some?
    ensures InTurn(whens, Some(r), p) == if DeletesIn(whens, p) then None else Some(r + Overrides(whens, p))
    decreases |whens|
  {
    if whens == [] {
      assert r + map[] == r;
    } else {
      var n := |whens| - 1;
      var init, w := whens[..n], whens[n];
      InTurnOverrides(init, r, p);
      DeletesInSnoc(whens, p);
      assert Supported(w);
      hide DeletesIn;
      if !DeletesIn(init, p) { OneOverride(r, Overrides(init, p), w, p); }
    }
  }

  lemma OneOverride<V>(r: Row<V>, o: Row<V>, w: When<V>, p: Pair<V>)
    requires Supported(w) && p.t.Some?
    ensures TurnOf(w, Some(r + o), p) ==
      if Applies(w, p) && w.action.Delete? then None else Some(r + (o + Assigned(w, p)))
  {
    assert (r + o) + Assigned(w, p) == r + (o + Assigned(w, p));
    assert o + map[] == o;
  }

  lemma DeletesInSnoc<V>(whens: seq<When<V>>, p: Pair<V>)
    requires whens != []
    ensures var n := |whens| - 1;
      DeletesIn(whens, p) <==> DeletesIn(whens[..n], p) || (Applies(whens[n], p) && whens[n].action.Delete?)
  {
    var n := |whens| - 1;
    assert forall i :: 0 <= i < n ==> whens[..n][i] == whens[i];
  }

  lemma SameAfterOverride<V>(r: Row<V>, o: Row<V>)
    ensures r + o == r <==> forall c :: c in o ==> c in r && r[c] == o[c]
  {
    if forall c :: c in o ==> c in r && r[c] == o[c] {
      assert r + o == r;
    } else {
      var c :| c in o && !(c in r && r[c] == o[c]);
      assert c in r + o && (r + o)[c] == o[c];
    }
  }

  lemma {:induction false} LaterSupported<V>(whens: seq<When<V>>, p: Pair<V>)
    requires AllSupported(whens)
    ensures AllSupported(Later(whens, p))
    decreases |whens|
  {
    if whens != [] && !Applies(whens[0], p) { LaterSupported(whens[1..], p); }
  }

  lemma {:induction false} NothingLater<V>(whens: seq<When<V>>, p: Pair<V>)
    requires FirstWhen(whens, p).None?
    ensures Later(whens, p) == []
    decreases |whens|
  {
    if whens != [] { NothingLater(whens[1..], p); }
  }

  /** Clauses acting in turn leave a target row as the deciding clause does exactly when they are harmless to it. */
  lemma InTurnIff<V>(whens: seq<When<V>>, t: Row<V>, p: Pair<V>)
    requires AllSupported(whens) && p.t.Some?
    ensures InTurn(whens, Some(t), p) == Decided(whens, t, p) <==> Harmless(whens, t, p)
  {
    InTurnFirst(whens, t, p);
    var later, d := Later(whens, p), Decided(whens, t, p);
    if FirstWhen(whens, p).None? {
      NothingLater(whens, p);
    } else {
      var i := FirstWhenAt(whens, p);
      assert Supported(whens[i]);
      LaterSupported(whens, p);
      hide Later, FirstWhen, InTurn, DeletesIn, Overrides, AllSupported;
      if d.None? {
        InTurnGone(later, p);
      } else {
        InTurnOverrides(later, d.value, p);
        SameAfterOverride(d.value, Overrides(later, p));
      }
    }
  }

  /** What the clauses leave of a staged row, acting in turn. */
  function LeftStep<V>(whens: seq<When<V>>): Staged<V> -> seq<Entry<V>> {
    (st: Staged<V>) => Kept(st.rowid, InTurn(whens, Some(st.t), Pair(Some(st.t), st.s)))
  }

  function DecidedStep<V>(whens: seq<When<V>>): Staged<V> -> seq<Entry<V>> {
    (st: Staged<V>) => Kept(st.rowid, Decided(whens, st.t, Pair(Some(st.t), st.s)))
  }

  lemma EffectInTurn<V>(whens: seq<When<V>>, w: When<V>, tset: seq<Staged<V>>, st: Staged<V>)
    requires DistinctStaged(tset) && st in tset && WhenStatement(w).Some?
    ensures FlatMap(Effect(WhenStatement(w).value, tset), LeftStep(whens)(st)) == LeftStep(whens + [w])(st)
  {
    var stmt, p := WhenStatement(w).value, Pair(Some(st.t), st.s);
    assert (whens + [w])[..|whens|] == whens;
    var r := InTurn(whens, Some(st.t), p);
    assert InTurn(whens + [w], Some(st.t), p) == TurnOf(w, r, p);
    WhenFires(w, st, st.t);
    LastFiringOnly(stmt, tset, st.rowid);
    if LastFiring(stmt, tset, st.rowid).Some? { StagedById(tset, st, LastFiring(stmt, tset, st.rowid).value); }
    hide InTurn, LastFiring, Fires, FiresForSource, DistinctStaged;
    if r.Some? {
      OneFlatMap(Effect(stmt, tset), Entry(st.rowid, r.value));
    } else {
      assert FlatMap(Effect(stmt, tset), []) == [];
    }
  }

  lemma {:induction false} EffectsInTurn<V>(whens: seq<When<V>>, w: When<V>, tset: seq<Staged<V>>, part: seq<Staged<V>>)
    requires DistinctStaged(tset) && WhenStatement(w).Some? && forall st :: st in part ==> st in tset
    ensures FlatMap(Effect(WhenStatement(w).value, tset), FlatMap(LeftStep(whens), part))
      == FlatMap(LeftStep(whens + [w]), part)
    decreases |part|
  {
    if part != [] {
      EffectsInTurn(whens, w, tset, part[1..]);
      EffectInTurn(whens, w, tset, part[0]);
      var f := Effect(WhenStatement(w).value, tset);
      FlatMapConcat(f, LeftStep(whens)(part[0]), FlatMap(LeftStep(whens), part[1..]));
    }
  }

  lemma {:induction false} InsertsLeave<V>(whens: seq<When<V>>, w: When<V>, part: seq<Staged<V>>)
    requires w.matchType == NotMatchedByTarget
    ensures FlatMap(LeftStep(whens + [w]), part) == FlatMap(LeftStep(whens), part)
    decreases |part|
  {
    if part != [] {
      InsertsLeave(whens, w, part[1..]);
      assert (whens + [w])[..|whens|] == whens;
    }
  }

  lemma {:induction false} NothingInTurn<V>(tset: seq<Staged<V>>, target: seq<Entry<V>>)
    requires Stages(tset, target)
    ensures FlatMap(LeftStep([]), tset) == target
    decreases |tset|
  {
    if tset != [] {
      NothingInTurn(tset[1..], target[1..]);
      assert LeftStep<V>([])(tset[0]) == [target[0]];
      assert target == [target[0]] + target[1..];
    }
  }

  /** Any run, overlapping clauses or not: what the clauses in turn left of the target, and inserted rows. */
  lemma {:induction false} RunInTurn<V>(whens: seq<When<V>>, target: seq<Entry<V>>, tset: seq<Staged<V>>,
      sonly: seq<Row<V>>, trace: seq<seq<Entry<V>>>, k: nat) returns (inserted: seq<Entry<V>>)
    requires Statements(whens).Some? && Stages(tset, target) && DistinctStaged(tset)
    requires Run(Statements(whens).value, tset, sonly, trace) && trace[0] == target && k <= |whens| < |trace|
    ensures trace[k] == FlatMap(LeftStep(whens[..k]), tset) + inserted
    decreases k
  {
    if k == 0 {
      inserted := [];
      assert whens[..0] == [];
      NothingInTurn(tset, target);
      assert target + [] == target;
    } else {
      var before := RunInTurn(whens, target, tset, sonly, trace, k - 1);
      StatementsAt(whens);
      var stmt, w := Statements(whens).value[k - 1], whens[k - 1];
      assert whens[..k] == whens[..k - 1] + [w];
      assert Executes(stmt, tset, sonly, trace[k - 1], trace[k]);
      inserted := StepInTurn(whens[..k - 1], w, tset, sonly, trace[k - 1], before, trace[k]);
    }
  }

  lemma StepInTurn<V>(whens: seq<When<V>>, w: When<V>, tset: seq<Staged<V>>, sonly: seq<Row<V>>, pre: seq<Entry<V>>,
      before: seq<Entry<V>>, post: seq<Entry<V>>) returns (inserted: seq<Entry<V>>)
    requires DistinctStaged(tset) && WhenStatement(w).Some? && Executes(WhenStatement(w).value, tset, sonly, pre, post)
    requires pre == FlatMap(LeftStep(whens), tset) + before
    ensures post == FlatMap(LeftStep(whens + [w]), tset) + inserted
  {
    var stmt := WhenStatement(w).value;
    if stmt.InsertSelect? {
      InsertsLeave(whens, w, tset);
      inserted := before + post[|pre|..];
      hide FlatMap, LeftStep, DistinctIds;
      assert post == pre + post[|pre|..];
      Regroup(FlatMap(LeftStep(whens), tset), before, post[|pre|..]);
    } else {
      FlatMapConcat(Effect(stmt, tset), FlatMap(LeftStep(whens), tset), before);
      EffectsInTurn(whens, w, tset, tset);
      inserted := FlatMap(Effect(stmt, tset), before);
    }
  }

  /** A per-row result is at most one row, under the same rowid. */
  ghost predicate OwnRow<V>(f: Staged<V> -> seq<Entry<V>>, tset: seq<Staged<V>>) {
    forall st :: st in tset ==> f(st) == [] || (|f(st)| == 1 && f(st)[0].rowid == st.rowid)
  }

  /** A row with the first rowid is not among the others' results. */
  lemma NotAmong<V>(f: Staged<V> -> seq<Entry<V>>, rest: seq<Staged<V>>, e: Entry<V>)
    requires OwnRow(f, rest) && forall st :: st in rest ==> st.rowid != e.rowid
    ensures e !in FlatMap(f, rest)
  {
    FlatMapElems(f, rest, e);
  }

  lemma SplitFirst<T>(a: seq<T>, b: seq<T>, c: seq<T>, d: seq<T>)
    requires |a| <= 1 && |c| <= 1 && (a != [] ==> a[0] !in d) && (c != [] ==> c[0] !in b)
    ensures a + b == c + d <==> a == c && b == d
  {
    if a + b == c + d {
      if a != [] { assert (a + b)[0] == a[0]; }
      if c != [] { assert (c + d)[0] == c[0]; }
      assert |a| == |c|;
      assert a == (a + b)[..|a|] == (c + d)[..|c|] == c;
      assert b == (a + b)[|a|..] == (c + d)[|c|..] == d;
    }
  }

  /** Per-row results under distinct rowids are equal together only if each is. */
  lemma {:induction false} Pointwise<V>(f: Staged<V> -> seq<Entry<V>>, g: Staged<V> -> seq<Entry<V>>,
      tset: seq<Staged<V>>)
    requires DistinctStaged(tset) && OwnRow(f, tset) && OwnRow(g, tset)
    ensures FlatMap(f, tset) == FlatMap(g, tset) <==> forall st :: st in tset ==> f(st) == g(st)
    decreases |tset|
  {
    if tset != [] {
      var st, rest := tset[0], tset[1..];
      assert forall x :: x in rest ==> x in tset && x.rowid != st.rowid;
      Pointwise(f, g, rest);
      FlatMapHead(f, tset);
      FlatMapHead(g, tset);
      hide FlatMap, DistinctStaged;
      if f(st) != [] { NotAmong(g, rest, f(st)[0]); }
      if g(st) != [] { NotAmong(f, rest, g(st)[0]); }
      SplitFirst(f(st), FlatMap(f, rest), g(st), FlatMap(g, rest));
      assert forall x :: x in tset <==> x == st || x in rest;
    }
  }

  /**
   Any run leaves the target rows as MERGE should exactly when the clauses are harmless to each of them,
   with inserted rows besides.
   */
  lemma TargetsLeftIff<V>(whens: seq<When<V>>, target: seq<Entry<V>>, source: seq<Row<V>>, on: On<V>,
      trace: seq<seq<Entry<V>>>) returns (inserted: seq<Entry<V>>)
    requires Statements(whens).Some? && DistinctIds(target) && AtMostOneMatch(target, source, on)
    requires Run(Statements(whens).value, TSet(target, source, on), SOnly(target, source, on), trace)
    requires trace[0] == target
    ensures trace[|trace| - 1] == FlatMap(LeftStep(whens), TSet(target, source, on)) + inserted
    ensures FlatMap(LeftStep(whens), TSet(target, source, on)) == FlatMap(DecidedStep(whens), TSet(target, source, on))
      <==> forall e :: e in target ==> Harmless(whens, e.row, TargetPair(e.row, source, on))
  {
    var tset := TSet(target, source, on);
    StagedOnce(target, source, on);
    StatementsAt(whens);
    inserted := RunInTurn(whens, target, tset, SOnly(target, source, on), trace, |whens|);
    assert whens[..|whens|] == whens;
    LeftIff(whens, tset);
    hide *;
    HarmlessStaged(whens, target, source, on);
  }

  lemma LeftIff<V>(whens: seq<When<V>>, tset: seq<Staged<V>>)
    requires AllSupported(whens) && DistinctStaged(tset)
    ensures FlatMap(LeftStep(whens), tset) == FlatMap(DecidedStep(whens), tset)
      <==> forall st :: st in tset ==> Harmless(whens, st.t, Pair(Some(st.t), st.s))
  {
    Pointwise(LeftStep(whens), DecidedStep(whens), tset);
    hide FlatMap, LeftStep, DecidedStep, Harmless;
    forall st | st in tset
      ensures LeftStep(whens)(st) == DecidedStep(whens)(st) <==> Harmless(whens, st.t, Pair(Some(st.t), st.s))
    {
      StagedIff(whens, st);
    }
  }

  lemma HarmlessStaged<V>(whens: seq<When<V>>, target: seq<Entry<V>>, source: seq<Row<V>>, on: On<V>)
    requires AtMostOneMatch(target, source, on)
    ensures (forall st :: st in TSet(target, source, on) ==> Harmless(whens, st.t, Pair(Some(st.t), st.s)))
      <==> forall e :: e in target ==> Harmless(whens, e.row, TargetPair(e.row, source, on))
  {
    hide TSet, Harmless, AtMostOneMatch;
    forall e | e in target ensures Staged(e.rowid, e.row, MatchOf(e.row, source, on)) in TSet(target, source, on) {
      StagedTarget(target, source, on, e);
    }
    if forall e :: e in target ==> Harmless(whens, e.row, TargetPair(e.row, source, on)) {
      forall st | st in TSet(target, source, on) ensures Harmless(whens, st.t, Pair(Some(st.t), st.s)) {
        var e := StagedWithMatch(target, source, on, st);
      }
    }
    if forall st :: st in TSet(target, source, on) ==> Harmless(whens, st.t, Pair(Some(st.t), st.s)) {
      forall e | e in target ensures Harmless(whens, e.row, TargetPair(e.row, source, on)) {
        var st := Staged(e.rowid, e.row, MatchOf(e.row, source, on));
        assert st in TSet(target, source, on);
      }
    }
  }

  lemma StagedIff<V>(whens: seq<When<V>>, st: Staged<V>)
    requires AllSupported(whens)
    ensures LeftStep(whens)(st) == DecidedStep(whens)(st) <==> Harmless(whens, st.t, Pair(Some(st.t), st.s))
  {
    InTurnIff(whens, st.t, Pair(Some(st.t), st.s));
    hide InTurn, Decided, Harmless;
  }

  lemma StagedTarget<V>(target: seq<Entry<V>>, source: seq<Row<V>>, on: On<V>, e: Entry<V>)
    requires AtMostOneMatch(target, source, on) && e in target
    ensures Staged(e.rowid, e.row, MatchOf(e.row, source, on)) in TSet(target, source, on)
  {
    JoinsOnce(e, source, on);
    FlatMapElems(JoinStep(source, on), target, Staged(e.rowid, e.row, MatchOf(e.row, source, on)));
  }

  /** All rows the clauses insert for a source row. */
  function InsertsInTurn<V>(whens: seq<When<V>>, s: Row<V>): seq<Row<V>> {
    if whens == [] then []
    else if Applies(whens[0], Pair(None, Some(s))) && whens[0].action.Insert? then
      [whens[0].action.values(Pair(None, Some(s)))] + InsertsInTurn(whens[1..], s)
    else InsertsInTurn(whens[1..], s)
  }

  lemma {:induction false} InsertsNone<V>(whens: seq<When<V>>, s: Row<V>)
    requires AllSupported(whens)
    ensures InsertsInTurn(whens, s) == [] <==> forall i :: 0 <= i < |whens| ==> !Applies(whens[i], Pair(None, Some(s)))
    decreases |whens|
  {
    if whens != [] {
      assert Supported(whens[0]);
      InsertsNone(whens[1..], s);
      assert forall i :: 1 <= i < |whens| ==> whens[i] == whens[1..][i - 1];
    }
  }

  /** A source row is inserted once, as it should be, exactly when no two clauses apply to it. */
  lemma {:induction false} InsertsIff<V>(whens: seq<When<V>>, s: Row<V>)
    requires AllSupported(whens)
    ensures InsertsInTurn(whens, s) == Inserted(whens, s) <==>
      forall i, j :: 0 <= i < j < |whens| ==>
        !(Applies(whens[i], Pair(None, Some(s))) && Applies(whens[j], Pair(None, Some(s))))
    decreases |whens|
  {
    if whens != [] {
      assert Supported(whens[0]);
      assert forall i :: 1 <= i < |whens| ==> whens[i] == whens[1..][i - 1];
      if Applies(whens[0], Pair(None, Some(s))) {
        InsertsNone(whens[1..], s);
      } else {
        InsertsIff(whens[1..], s);
      }
    }
  }

  function Never(): On<int> { (_, _) => false }

  function Always(): Pair<int> -> bool { _ => true }

  function Setting(v: int): Pair<int> -> Row<int> { _ => map[0 := v] }

  /** An UPDATE and then a DELETE of the same row: the first should decide, the last does. */
  function OverlapWhens(): seq<When<int>> {
    [When(NotMatchedBySource, Always(), Update(Setting(1))), When(NotMatchedBySource, Always(), Delete)]
  }

  lemma NoSource(e: Entry<int>)
    ensures TSet([e], [], Never()) == [Staged(e.rowid, e.row, None)]
  {
    OneFlatMap(JoinStep([], Never()), e);
    assert Matches(e.row, [], Never()) == [];
  }

  lemma OverlapExample()
    ensures var target, trace := [Entry(7, map[0 := 0])], [[Entry(7, map[0 := 0])], [Entry(7, map[0 := 1])], []];
      && Statements(OverlapWhens()).Some?
      && Run(Statements(OverlapWhens()).value, TSet(target, [], Never()), SOnly(target, [], Never()), trace)
      && MergeResult(OverlapWhens(), RowsOf(target), [], Never()) == [map[0 := 1]]
      && !Harmless(OverlapWhens(), map[0 := 0], TargetPair(map[0 := 0], [], Never()))
  {
    var e, e', st := Entry(7, map[0 := 0]), Entry(7, map[0 := 1]), Staged(7, map[0 := 0], None);
    StatementsAt(OverlapWhens());
    var stmts := Statements(OverlapWhens()).value;
    OverlapStatements(stmts);
    NoSource(e);
    assert e.row + map[0 := 1] == e'.row && SOnly([e], [], Never()) == [];
    OverlapResult(e.row);
    hide *;
    ChangeOne(stmts[0], st, e);
    ChangeOne(stmts[1], st, e');
    RunTwo(stmts, [st], [], [e], [e'], []);
  }

  lemma OverlapStatements(stmts: seq<Stmt<int>>)
    requires |stmts| == 2 && forall i :: 0 <= i < 2 ==> WhenStatement(OverlapWhens()[i]) == Some(stmts[i])
    ensures forall st: Staged<int> :: st.s.None? ==> Fires(stmts[0], st) && Fires(stmts[1], st)
    ensures stmts[0].UpdateFrom? && stmts[1].DeleteIn? && forall p :: stmts[0].assign(p) == map[0 := 1]
  {
    assert WhenStatement(OverlapWhens()[0]) == Some(stmts[0]) && WhenStatement(OverlapWhens()[1]) == Some(stmts[1]);
  }

  lemma RunTwo<V>(stmts: seq<Stmt<V>>, tset: seq<Staged<V>>, sonly: seq<Row<V>>, a: seq<Entry<V>>, b: seq<Entry<V>>,
      c: seq<Entry<V>>)
    requires |stmts| == 2 && Executes(stmts[0], tset, sonly, a, b) && Executes(stmts[1], tset, sonly, b, c)
    ensures Run(stmts, tset, sonly, [a, b, c])
  {
    hide Executes;
  }

  lemma RunThree<V>(stmts: seq<Stmt<V>>, tset: seq<Staged<V>>, sonly: seq<Row<V>>, a: seq<Entry<V>>,
      b: seq<Entry<V>>, c: seq<Entry<V>>, d: seq<Entry<V>>)
    requires |stmts| == 3 && Executes(stmts[0], tset, sonly, a, b) && Executes(stmts[1], tset, sonly, b, c)
    requires Executes(stmts[2], tset, sonly, c, d)
    ensures Run(stmts, tset, sonly, [a, b, c, d])
  {
    hide Executes;
  }

  /** An UPDATE or DELETE that fires for the one staged row. */
  lemma ChangeOne(stmt: Stmt<int>, st: Staged<int>, e: Entry<int>)
    requires st.rowid == e.rowid && Fires(stmt, st)
    ensures stmt.UpdateFrom? ==>
      forall sonly :: Executes(stmt, [st], sonly, [e], [Entry(e.rowid, e.row + stmt.assign(Pair(Some(st.t), st.s)))])
    ensures stmt.DeleteIn? ==> forall sonly :: Executes(stmt, [st], sonly, [e], [])
  {
    OneEffect(stmt, st, e);
    hide FlatMap, Effect;
  }

  lemma OverlapResult(t: Row<int>)
    requires t == map[0 := 0]
    ensures MergeResult(OverlapWhens(), [t], [], Never()) == [map[0 := 1]]
    ensures RowsOf([Entry(7, t)]) == [t]
    ensures !Harmless(OverlapWhens(), t, TargetPair(t, [], Never()))
  {
    var whens, p := OverlapWhens(), Pair(Some(t), None);
    assert TargetPair(t, [], Never()) == p;
    assert Applies(whens[0], p) && Applies(whens[1], p);
    assert t + map[0 := 1] == map[0 := 1];
    OneFlatMap(TargetStep(whens, [], Never()), t);
    var later := Later(whens, p);
    assert later == [whens[1]];
    assert later[0].action.Delete? && Applies(later[0], p);
  }

  /** A DELETE frees a rowid, an INSERT takes it, and an UPDATE meant for the deleted row overwrites the new one. */
  function ReuseWhens(): seq<When<int>> {
    [When(NotMatchedBySource, Always(), Delete),
     When(NotMatchedByTarget, Always(), Insert(Setting(5))),
     When(NotMatchedBySource, Always(), Update(Setting(9)))]
  }

  lemma ReuseStatements(stmts: seq<Stmt<int>>, s: Row<int>)
    requires |stmts| == 3 && forall i :: 0 <= i < 3 ==> WhenStatement(ReuseWhens()[i]) == Some(stmts[i])
    ensures forall st: Staged<int> :: st.s.None? ==> Fires(stmts[0], st) && Fires(stmts[2], st)
    ensures stmts[0].DeleteIn? && stmts[1].InsertSelect? && stmts[2].UpdateFrom?
    ensures InsertStep(stmts[1])(s) == [map[0 := 5]] && forall p :: stmts[2].assign(p) == map[0 := 9]
  {
    var whens := ReuseWhens();
    assert WhenStatement(whens[0]) == Some(stmts[0]) && WhenStatement(whens[1]) == Some(stmts[1]);
    assert WhenStatement(whens[2]) == Some(stmts[2]);
    var p := Pair(None, Some(s));
    assert FiresForSource(stmts[1], s) && stmts[1].values(p) == Setting(5)(p) == map[0 := 5];
    assert InsertStep(stmts[1])(s) == [stmts[1].values(p)];
  }

  lemma InsertOne(stmt: Stmt<int>, tset: seq<Staged<int>>, s: Row<int>, e: Entry<int>)
    requires stmt.InsertSelect? && InsertStep(stmt)(s) == [e.row]
    ensures Executes(stmt, tset, [s], [], [e])
  {
    OneFlatMap(InsertStep(stmt), s);
    var none: seq<Entry<int>> := [];
    assert [e][|none|..] == [e] && [e][..|none|] == none && RowsOf([e]) == [e.row] && DistinctIds([e]);
    assert RowsOf([e][|none|..]) == FlatMap(InsertStep(stmt), [s]);
  }

  lemma ReuseResult(t: Row<int>, s: Row<int>)
    ensures MergeResult(ReuseWhens(), [t], [s], Never()) == [map[0 := 5]]
    ensures Harmless(ReuseWhens(), t, TargetPair(t, [s], Never()))
  {
    var whens, p, q := ReuseWhens(), Pair(Some(t), None), Pair(None, Some(s));
    assert MatchOf(t, [s], Never()) == MatchOf(t, [s][1..], Never()) == None;
    assert TargetPair(t, [s], Never()) == p && Applies(whens[0], p);
    assert FirstWhen(whens, p) == Some(whens[0]);
    assert !Applies(whens[0], q) && Applies(whens[1], q);
    assert whens[1..][0] == whens[1] && FirstWhen(whens, q) == Some(whens[1]);
    OneFlatMap(TargetStep(whens, [s], Never()), t);
    OneFlatMap(SourceStep(whens, [t], Never()), s);
    assert TargetStep(whens, [s], Never())(t) == [];
    assert Unmatched(s, [t], Never()) && SourceStep(whens, [t], Never())(s) == [map[0 := 5]];
  }

  lemma OneOfEach(e: Entry<int>, s: Row<int>)
    ensures TSet([e], [s], Never()) == [Staged(e.rowid, e.row, None)] && SOnly([e], [s], Never()) == [s]
  {
    OneFlatMap(JoinStep([s], Never()), e);
    assert Matches(e.row, [s], Never()) == Matches(e.row, [s][1..], Never());
    assert SOnly([e], [s], Never()) == [s] + SOnly([e], [s][1..], Never());
  }

  /** So a run can be wrong although the clauses are harmless to every target row taken alone. */
  lemma ReuseExample()
    ensures var target, source := [Entry(1, map[0 := 0])], [map[0 := 3]];
      var trace := [target, [], [Entry(1, map[0 := 5])], [Entry(1, map[0 := 9])]];
      && Statements(ReuseWhens()).Some?
      && Run(Statements(ReuseWhens()).value, TSet(target, source, Never()), SOnly(target, source, Never()), trace)
      && MergeResult(ReuseWhens(), RowsOf(target), source, Never()) == [map[0 := 5]]
      && Harmless(ReuseWhens(), map[0 := 0], TargetPair(map[0 := 0], source, Never()))
  {
    var e, s: Row<int> := Entry(1, map[0 := 0]), map[0 := 3];
    StatementsAt(ReuseWhens());
    ReuseResult(e.row, s);
    OneOfEach(e, s);
    assert RowsOf([e]) == [e.row];
    ReuseRun(e, s, Entry(1, map[0 := 5]), Entry(1, map[0 := 9]));
    hide *;
  }

  lemma ReuseRun(e: Entry<int>, s: Row<int>, e': Entry<int>, e'': Entry<int>)
    requires e'.rowid == e''.rowid == e.rowid && e'.row == map[0 := 5] && e''.row == map[0 := 9]
    ensures Statements(ReuseWhens()).Some?
    ensures Run(Statements(ReuseWhens()).value, [Staged(e.rowid, e.row, None)], [s], [[e], [], [e'], [e'']])
  {
    var st := Staged(e.rowid, e.row, None);
    StatementsAt(ReuseWhens());
    var stmts := Statements(ReuseWhens()).value;
    ReuseStatements(stmts, s);
    assert e'.row + map[0 := 9] == e''.row;
    var u := Entry(e'.rowid, e'.row + stmts[2].assign(Pair(Some(st.t), st.s)));
    assert u == e'';
    hide *;
    ChangeOne(stmts[0], st, e);
    InsertOne(stmts[1], [st], s, e');
    ChangeOne(stmts[2], st, e');
    RunThree(stmts, [st], [s], [e], [], [e'], [e'']);
  }

  lemma OneEffect(stmt: Stmt<int>, st: Staged<int>, e: Entry<int>)
    requires st.rowid == e.rowid && Fires(stmt, st)
    ensures FlatMap(Effect(stmt, [st]), [e]) ==
              match stmt
              case UpdateFrom(_, _, assign) => [Entry(e.rowid, e.row + assign(Pair(Some(st.t), st.s)))]
              case _ => []
  {
    FlatMapSnoc(Effect(stmt, [st]), [], e);
    assert [] + [e] == [e] && FlatMap(Effect(stmt, [st]), []) == [];
    assert LastFiring(stmt, [st], e.rowid) == Some(st);
  }

  // ----- the target table -----

  lemma {:induction false} StatementsPrefix<V>(whens: seq<When<V>>, k: nat)
    requires k <= |whens| && Statements(whens[..k]).None?
    ensures Statements(whens).None?
    decreases |whens| - k
  {
    if k == |whens| {
      assert whens[..k] == whens;
    } else {
      assert whens[..k + 1][..k] == whens[..k];
      StatementsPrefix(whens, k + 1);
    }
  }

  /** A statement selects the rows its clause applies to and does to them what its clause says. */
  ghost predicate Carries<V(!new)>(stmt: Stmt<V>, w: When<V>) {
    && (forall st: Staged<V> :: Fires(stmt, st) <==> Applies(w, Pair(Some(st.t), st.s)))
    && (forall s: Row<V> :: FiresForSource(stmt, s) <==> Applies(w, Pair(None, Some(s))))
    && (match stmt
        case UpdateFrom(_, _, assign) => w.action == Update(assign)
        case DeleteIn(_, _) => w.action == Delete
        case InsertSelect(_, values) => w.action == Insert(values))
  }

  lemma StatementsCarry<V(!new)>(whens: seq<When<V>>)
    ensures Statements(whens).Some? <==> forall i :: 0 <= i < |whens| ==> Supported(whens[i])
    ensures Statements(whens).Some? ==>
      && |Statements(whens).value| == |whens|
      && forall i :: 0 <= i < |whens| ==> Carries(Statements(whens).value[i], whens[i])
  {
    StatementsAt(whens);
    if Statements(whens).Some? {
      forall i | 0 <= i < |whens| ensures Carries(Statements(whens).value[i], whens[i]) {
        assert WhenStatement(whens[i]) == Some(Statements(whens).value[i]);
      }
    }
  }

  /** The emission loop over the WHEN clauses; the first unsupported one is an error. */
  method NewMergeStmtAction<V(!new)>(whens: seq<When<V>>) returns (stmts: Option<seq<Stmt<V>>>)
    ensures stmts == Statements(whens)
    ensures stmts.Some? <==> forall i :: 0 <= i < |whens| ==> Supported(whens[i])
    ensures stmts.Some? ==>
      && |stmts.value| == |whens|
      && forall i :: 0 <= i < |whens| ==> Carries(stmts.value[i], whens[i])
  {
    var out: seq<Stmt<V>> := [];
    var k := 0;
    StatementsCarry(whens);
    while k < |whens|
      invariant k <= |whens|
      invariant Statements(whens[..k]) == Some(out)
    {
      assert whens[..k + 1][..k] == whens[..k];
      var stmt := WhenStatement(whens[k]);
      if stmt.None? { StatementsPrefix(whens, k + 1); return None; }
      out := out + [stmt.value];
      k := k + 1;
    }
    assert whens[..k] == whens;
    return Some(out);
  }

  ghost predicate IdIn<V>(id: nat, table: seq<Entry<V>>) {
    exists i :: 0 <= i < |table| && table[i].rowid == id
  }

  lemma {:induction false} EffectIds<V>(stmt: Stmt<V>, tset: seq<Staged<V>>, table: seq<Entry<V>>)
    requires DistinctIds(table)
    ensures DistinctIds(FlatMap(Effect(stmt, tset), table))
    ensures forall e :: e in FlatMap(Effect(stmt, tset), table) ==> IdIn(e.rowid, table)
    decreases |table|
  {
    if table != [] {
      var head, rest := Effect(stmt, tset)(table[0]), FlatMap(Effect(stmt, tset), table[1..]);
      EffectIds(stmt, tset, table[1..]);
      FlatMapHead(Effect(stmt, tset), table);
      assert |head| <= 1 && forall i :: 0 <= i < |head| ==> head[i].rowid == table[0].rowid;
      PrependIds(table, head, rest);
    }
  }

  lemma PrependIds<V>(table: seq<Entry<V>>, head: seq<Entry<V>>, rest: seq<Entry<V>>)
    requires table != [] && DistinctIds(table) && DistinctIds(rest)
    requires |head| <= 1 && forall i :: 0 <= i < |head| ==> head[i].rowid == table[0].rowid
    requires forall e :: e in rest ==> IdIn(e.rowid, table[1..])
    ensures DistinctIds(head + rest)
    ensures forall e :: e in head + rest ==> IdIn(e.rowid, table)
  {
    forall e | e in rest ensures IdIn(e.rowid, table) && e.rowid != table[0].rowid {
      var i :| 0 <= i < |table| - 1 && table[1..][i].rowid == e.rowid;
      assert table[i + 1].rowid == e.rowid;
    }
    assert IdIn(table[0].rowid, table);
    var all := head + rest;
    assert forall j :: |head| <= j < |all| ==> all[j] in rest;
  }

  lemma FlatMapHead<A, B>(f: A -> seq<B>, s: seq<A>)
    requires s != []
    ensures FlatMap(f, s) == f(s[0]) + FlatMap(f, s[1..])
  {}

  class TargetTable<!V(!new)> {
    var rows: seq<Entry<V>>

    constructor (initial: seq<Entry<V>>)
      ensures rows == initial
    {
      rows := initial;
    }

    /** SQLite's choice for a new row: one more than the largest rowid in use. */
    function NextId(): (id: nat)
      reads this
      ensures forall i :: 0 <= i < |rows| ==> rows[i].rowid < id
    {
      MaxId(rows) + 1
    }

    static function MaxId(table: seq<Entry<V>>): (id: nat)
      ensures forall i :: 0 <= i < |table| ==> table[i].rowid <= id
    {
      if table == [] then 0
      else
        var m := MaxId(table[..|table| - 1]);
        if m < table[|table| - 1].rowid then table[|table| - 1].rowid else m
    }

    method Append(added: seq<Row<V>>)
      requires DistinctIds(rows)
      modifies this
      ensures DistinctIds(rows)
      ensures |rows| == |old(rows)| + |added| && rows[..|old(rows)|] == old(rows)
      ensures RowsOf(rows[|old(rows)|..]) == added
    {
      var k := 0;
      while k < |added|
        invariant k <= |added| && DistinctIds(rows)
        invariant |rows| == |old(rows)| + k && rows[..|old(rows)|] == old(rows)
        invariant forall i :: 0 <= i < k ==> rows[|old(rows)| + i].row == added[i]
      {
        rows := rows + [Entry(NextId(), added[k])];
        k := k + 1;
      }
    }

    method Execute(stmt: Stmt<V>, tset: seq<Staged<V>>, sonly: seq<Row<V>>)
      requires DistinctIds(rows)
      modifies this
      ensures DistinctIds(rows)
      ensures Executes(stmt, tset, sonly, old(rows), rows)
    {
      if stmt.InsertSelect? {
        Append(FlatMap(InsertStep(stmt), sonly));
      } else {
        EffectIds(stmt, tset, rows);
        rows := FlatMap(Effect(stmt, tset), rows);
      }
    }

    /** MERGE: both snapshots first, then the statements in clause order. */
    method Merge(source: seq<Row<V>>, on: On<V>, whens: seq<When<V>>) returns (ok: bool)
      requires DistinctIds(rows)
      modifies this
      ensures ok <==> forall i :: 0 <= i < |whens| ==> Supported(whens[i])
      ensures !ok ==> rows == old(rows)
      ensures DistinctIds(rows)
      ensures ok && AtMostOneMatch(old(rows), source, on) && DisjointWhens(whens, RowsOf(old(rows)), source, on) ==>
        multiset(RowsOf(rows)) == multiset(MergeResult(whens, RowsOf(old(rows)), source, on))
    {
      var stmts := NewMergeStmtAction(whens);
      StatementsAt(whens);
      if stmts.None? { return false; }
      var tset, sonly := TSet(rows, source, on), SOnly(rows, source, on);
      ghost var trace := [rows];
      var k := 0;
      while k < |stmts.value|
        invariant k <= |stmts.value| && |trace| == k + 1
        invariant trace[0] == old(rows) && trace[k] == rows && DistinctIds(rows)
        invariant forall j :: 0 <= j < k ==> Executes(stmts.value[j], tset, sonly, trace[j], trace[j + 1])
      {
        hide Executes, DistinctIds, TSet, SOnly;
        Execute(stmts.value[k], tset, sonly);
        trace := trace + [rows];
        k := k + 1;
      }
      if AtMostOneMatch(old(rows), source, on) && DisjointWhens(whens, RowsOf(old(rows)), source, on) {
        assert Run(stmts.value, tset, sonly, trace);
        hide *;
        MergeIsSimultaneous(whens, old(rows), source, on, trace);
      }
      return true;
    }
  }
}

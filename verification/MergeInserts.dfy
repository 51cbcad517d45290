/**
 The rows a run of MERGE inserts, overlapping clauses or not. An insert may take the rowid of a target row that was
 deleted before, and a later clause that applies to the deleted row then acts on the inserted one.
 */
module MergeInserts {
  import opened Sequences
  import opened Merge

  /** No INSERT takes the rowid of a target row, though deletions may have freed it. */
  ghost predicate NoReuse<V>(target: seq<Entry<V>>, trace: seq<seq<Entry<V>>>) {
    forall k, e :: 0 <= k < |trace| - 1 && e in trace[k + 1] && !IdIn(e.rowid, trace[k]) ==> !IdIn(e.rowid, target)
  }

  /** No two clauses apply to the same unmatched source row. */
  ghost predicate SingleInserts<V>(whens: seq<When<V>>, target: seq<Row<V>>, source: seq<Row<V>>, on: On<V>) {
    forall s :: s in source && Unmatched(s, target, on) ==> Single(whens, s)
  }

  ghost predicate Single<V>(whens: seq<When<V>>, s: Row<V>) {
    forall i, j :: 0 <= i < j < |whens| ==>
      !(Applies(whens[i], Pair(None, Some(s))) && Applies(whens[j], Pair(None, Some(s))))
  }

  /** No clause that applies is a DELETE, and the last value they assign to each column is the one it has. */
  ghost predicate Keeps<V>(whens: seq<When<V>>, r: Row<V>, p: Pair<V>) {
    && !DeletesIn(whens, p)
    && forall c :: c in Overrides(whens, p) ==> c in r && r[c] == Overrides(whens, p)[c]
  }

  /** If the k-th clause inserts a row for s after t was deleted, the later clauses for t leave that row alone. */
  ghost predicate Spared<V>(whens: seq<When<V>>, k: nat, s: Row<V>, t: Row<V>, source: seq<Row<V>>, on: On<V>) {
    k < |whens| && whens[k].action.Insert? && Applies(whens[k], Pair(None, Some(s)))
    && DeletesIn(whens[..k], TargetPair(t, source, on)) ==>
      Keeps(whens[k + 1..], whens[k].action.values(Pair(None, Some(s))), TargetPair(t, source, on))
  }

  ghost predicate AllSpared<V>(whens: seq<When<V>>, target: seq<Row<V>>, source: seq<Row<V>>, on: On<V>) {
    forall k: nat, s, t :: s in source && Unmatched(s, target, on) && t in target ==> Spared(whens, k, s, t, source, on)
  }

  ghost predicate AllHarmless<V>(whens: seq<When<V>>, target: seq<Entry<V>>, source: seq<Row<V>>, on: On<V>) {
    forall e :: e in target ==> Harmless(whens, e.row, TargetPair(e.row, source, on))
  }

  /** A run ends with the rows MERGE should leave. */
  ghost predicate Merged<V>(whens: seq<When<V>>, target: seq<Entry<V>>, source: seq<Row<V>>, on: On<V>,
      trace: seq<seq<Entry<V>>>) {
    trace != [] && multiset(RowsOf(trace[|trace| - 1])) == multiset(MergeResult(whens, RowsOf(target), source, on))
  }

  function AllInserts<V>(whens: seq<When<V>>): Row<V> -> seq<Row<V>> { (s: Row<V>) => InsertsInTurn(whens, s) }

  function FirstInserts<V>(whens: seq<When<V>>): Row<V> -> seq<Row<V>> { (s: Row<V>) => Inserted(whens, s) }

  // ----- one clause more -----

  lemma {:induction false} InsertsSnoc<V>(whens: seq<When<V>>, w: When<V>, s: Row<V>)
    ensures InsertsInTurn(whens + [w], s) == InsertsInTurn(whens, s) + InsertsInTurn([w], s)
    decreases |whens|
  {
    hide Applies;
    if whens == [] {
      assert whens + [w] == [w];
    } else {
      InsertsSnoc(whens[1..], w, s);
      assert (whens + [w])[1..] == whens[1..] + [w];
    }
  }

  lemma OneClause<V>(w: When<V>, s: Row<V>)
    requires WhenStatement(w).Some?
    ensures InsertStep(WhenStatement(w).value)(s) == InsertsInTurn([w], s)
  {
    WhenFires(w, Staged(0, s, None), s);
    assert [w][1..] == [];
    assert InsertsInTurn([w][1..], s) == [];
  }

  /** A further clause adds, as a bag, the rows it inserts. */
  lemma {:induction false} InsertsAdd<V>(whens: seq<When<V>>, w: When<V>, part: seq<Row<V>>)
    requires WhenStatement(w).Some?
    ensures multiset(FlatMap(AllInserts(whens + [w]), part))
      == multiset(FlatMap(AllInserts(whens), part)) + multiset(FlatMap(InsertStep(WhenStatement(w).value), part))
    decreases |part|
  {
    if part != [] {
      InsertsAdd(whens, w, part[1..]);
      InsertsSnoc(whens, w, part[0]);
      OneClause(w, part[0]);
      hide InsertsInTurn, InsertStep, WhenStatement;
    }
  }

  lemma {:induction false} NoClauseAdds<V>(part: seq<Row<V>>)
    ensures FlatMap(AllInserts<V>([]), part) == []
    decreases |part|
  {
    if part != [] { NoClauseAdds(part[1..]); }
  }

  // ----- what becomes of an inserted row -----

  /** The staged row under a rowid. */
  function Owner<V>(tset: seq<Staged<V>>, rowid: nat): (r: Option<Staged<V>>)
    ensures r.Some? ==> r.value in tset && r.value.rowid == rowid
    ensures r.None? ==> forall st :: st in tset ==> st.rowid != rowid
  {
    if tset == [] then None else if tset[0].rowid == rowid then Some(tset[0]) else Owner(tset[1..], rowid)
  }

  /** What the clauses still to come leave of a row of the table, whoever it belongs to. */
  function Future<V>(rest: seq<When<V>>, tset: seq<Staged<V>>): Entry<V> -> seq<Row<V>> {
    (e: Entry<V>) =>
      match Owner(tset, e.rowid)
      case None => [e.row]
      case Some(st) => Listed(InTurn(rest, Some(e.row), Pair(Some(st.t), st.s)))
  }

  lemma InTurnCons<V>(w: When<V>, rest: seq<When<V>>, row: Option<Row<V>>, p: Pair<V>)
    ensures InTurn([w] + rest, row, p) == InTurn(rest, TurnOf(w, row, p), p)
  {
    InTurnConcat([w], rest, row, p);
    assert [w][..0] == [];
    assert InTurn([w], row, p) == TurnOf(w, row, p);
  }

  lemma EffectOf<V>(w: When<V>, tset: seq<Staged<V>>, e: Entry<V>)
    requires DistinctStaged(tset) && WhenStatement(w).Some? && !WhenStatement(w).value.InsertSelect?
    ensures Effect(WhenStatement(w).value, tset)(e) ==
      match Owner(tset, e.rowid)
      case None => [e]
      case Some(st) => Kept(e.rowid, TurnOf(w, Some(e.row), Pair(Some(st.t), st.s)))
  {
    var stmt := WhenStatement(w).value;
    if Owner(tset, e.rowid).None? {
      NoneFiring(stmt, tset, e.rowid);
    } else {
      var st := Owner(tset, e.rowid).value;
      WhenFires(w, st, st.t);
      LastFiringOnly(stmt, tset, e.rowid);
      if LastFiring(stmt, tset, e.rowid).Some? { StagedById(tset, st, LastFiring(stmt, tset, e.rowid).value); }
      hide LastFiring, Fires, FiresForSource, DistinctStaged, Owner, Applies;
    }
  }

  /** An UPDATE or DELETE takes a row one step into its future. */
  lemma FutureChange<V>(w: When<V>, rest: seq<When<V>>, tset: seq<Staged<V>>, e: Entry<V>)
    requires DistinctStaged(tset) && WhenStatement(w).Some? && !WhenStatement(w).value.InsertSelect?
    ensures FlatMap(Future(rest, tset), Effect(WhenStatement(w).value, tset)(e)) == Future([w] + rest, tset)(e)
  {
    EffectOf(w, tset, e);
    hide Effect, WhenStatement, DistinctStaged, InTurn, TurnOf, FlatMap;
    match Owner(tset, e.rowid) {
      case None => OneFlatMap(Future(rest, tset), e);
      case Some(st) =>
        var p := Pair(Some(st.t), st.s);
        InTurnCons(w, rest, Some(e.row), p);
        match TurnOf(w, Some(e.row), p) {
          case None =>
            InTurnGone(rest, p);
            NothingMapped(Future(rest, tset));
          case Some(r) => OneFlatMap(Future(rest, tset), Entry(e.rowid, r));
        }
    }
  }

  lemma {:induction false} FutureChanges<V>(w: When<V>, rest: seq<When<V>>, tset: seq<Staged<V>>, part: seq<Entry<V>>)
    requires DistinctStaged(tset) && WhenStatement(w).Some? && !WhenStatement(w).value.InsertSelect?
    ensures FlatMap(Future(rest, tset), FlatMap(Effect(WhenStatement(w).value, tset), part))
      == FlatMap(Future([w] + rest, tset), part)
    decreases |part|
  {
    if part != [] {
      var f := Effect(WhenStatement(w).value, tset);
      FutureChanges(w, rest, tset, part[1..]);
      FutureChange(w, rest, tset, part[0]);
      FlatMapConcat(Future(rest, tset), f(part[0]), FlatMap(f, part[1..]));
    }
  }

  /** An INSERT does nothing to rows that are there. */
  lemma FutureInsert<V>(w: When<V>, rest: seq<When<V>>, tset: seq<Staged<V>>, part: seq<Entry<V>>)
    requires w.matchType == NotMatchedByTarget
    ensures FlatMap(Future([w] + rest, tset), part) == FlatMap(Future(rest, tset), part)
  {
    forall e | e in part ensures Future([w] + rest, tset)(e) == Future(rest, tset)(e) {
      if Owner(tset, e.rowid).Some? {
        var st := Owner(tset, e.rowid).value;
        InTurnCons(w, rest, Some(e.row), Pair(Some(st.t), st.s));
      }
    }
    SameFlatMap(Future([w] + rest, tset), Future(rest, tset), part);
  }

  lemma {:induction false} NoFuture<V>(tset: seq<Staged<V>>, part: seq<Entry<V>>)
    ensures FlatMap(Future([], tset), part) == RowsOf(part)
    decreases |part|
  {
    if part != [] {
      NoFuture(tset, part[1..]);
      assert Future<V>([], tset)(part[0]) == [part[0].row];
      assert RowsOf(part) == [part[0].row] + RowsOf(part[1..]);
    }
  }

  // ----- whole runs -----

  /**
   The table after k clauses: what they left of the target, and inserted rows. What these will become, and the rows
   missed, are the rows the clauses inserted, and the rows that should not be there.
   */
  ghost predicate Tracks<V>(whens: seq<When<V>>, k: nat, tset: seq<Staged<V>>, sonly: seq<Row<V>>,
      table: seq<Entry<V>>, inserted: seq<Entry<V>>, missed: multiset<Row<V>>, spurious: multiset<Row<V>>) {
    && k <= |whens| && table == FlatMap(LeftStep(whens[..k]), tset) + inserted
    && multiset(FlatMap(Future(whens[k..], tset), inserted)) + missed
       == multiset(FlatMap(AllInserts(whens[..k]), sonly)) + spurious
  }

  lemma Split<V>(whens: seq<When<V>>, k: nat)
    requires k < |whens|
    ensures whens[..k + 1] == whens[..k] + [whens[k]] && whens[k..] == [whens[k]] + whens[k + 1..]
  {}

  lemma StepChanges<V>(whens: seq<When<V>>, k: nat, tset: seq<Staged<V>>, sonly: seq<Row<V>>, pre: seq<Entry<V>>,
      inserted: seq<Entry<V>>, missed: multiset<Row<V>>, spurious: multiset<Row<V>>, post: seq<Entry<V>>)
    requires Tracks(whens, k, tset, sonly, pre, inserted, missed, spurious) && k < |whens| && DistinctStaged(tset)
    requires WhenStatement(whens[k]).Some? && !WhenStatement(whens[k]).value.InsertSelect?
    requires Executes(WhenStatement(whens[k]).value, tset, sonly, pre, post)
    ensures Tracks(whens, k + 1, tset, sonly, post, FlatMap(Effect(WhenStatement(whens[k]).value, tset), inserted),
      missed, spurious)
  {
    var w, stmt := whens[k], WhenStatement(whens[k]).value;
    Split(whens, k);
    FlatMapConcat(Effect(stmt, tset), FlatMap(LeftStep(whens[..k]), tset), inserted);
    EffectsInTurn(whens[..k], w, tset, tset);
    FutureChanges(w, whens[k + 1..], tset, inserted);
    InsertsAdd(whens[..k], w, sonly);
    NoInserts(stmt, sonly);
    hide FlatMap, Effect, WhenStatement, Future, AllInserts, LeftStep, DistinctStaged;
  }

  lemma StepInserts<V>(whens: seq<When<V>>, k: nat, tset: seq<Staged<V>>, sonly: seq<Row<V>>, pre: seq<Entry<V>>,
      inserted: seq<Entry<V>>, missed: multiset<Row<V>>, spurious: multiset<Row<V>>, post: seq<Entry<V>>)
    requires Tracks(whens, k, tset, sonly, pre, inserted, missed, spurious) && k < |whens|
    requires WhenStatement(whens[k]).Some? && WhenStatement(whens[k]).value.InsertSelect?
    requires Executes(WhenStatement(whens[k]).value, tset, sonly, pre, post)
    ensures |pre| <= |post| && RowsOf(post[|pre|..]) == FlatMap(InsertStep(WhenStatement(whens[k]).value), sonly)
    ensures Tracks(whens, k + 1, tset, sonly, post, inserted + post[|pre|..],
      missed + multiset(RowsOf(post[|pre|..])),
      spurious + multiset(FlatMap(Future(whens[k + 1..], tset), post[|pre|..])))
  {
    var w, added := whens[k], post[|pre|..];
    Split(whens, k);
    InsertsLeave(whens[..k], w, tset);
    FutureInsert(w, whens[k + 1..], tset, inserted);
    InsertsAdd(whens[..k], w, sonly);
    assert post == pre + added;
    hide *;
    Regroup(FlatMap(LeftStep(whens[..k]), tset), inserted, added);
    FutureAdd(Future(whens[k + 1..], tset), inserted, added);
    AddBoth(multiset(FlatMap(Future(whens[k + 1..], tset), inserted)), multiset(FlatMap(AllInserts(whens[..k]), sonly)),
      missed, spurious, multiset(RowsOf(added)), multiset(FlatMap(Future(whens[k + 1..], tset), added)));
    IsTracks(whens, k + 1, tset, sonly, post, inserted + added, missed + multiset(RowsOf(added)),
      spurious + multiset(FlatMap(Future(whens[k + 1..], tset), added)));
  }

  lemma IsTracks<V>(whens: seq<When<V>>, k: nat, tset: seq<Staged<V>>, sonly: seq<Row<V>>,
      table: seq<Entry<V>>, inserted: seq<Entry<V>>, missed: multiset<Row<V>>, spurious: multiset<Row<V>>)
    requires k <= |whens| && table == FlatMap(LeftStep(whens[..k]), tset) + inserted
    requires multiset(FlatMap(Future(whens[k..], tset), inserted)) + missed
      == multiset(FlatMap(AllInserts(whens[..k]), sonly)) + spurious
    ensures Tracks(whens, k, tset, sonly, table, inserted, missed, spurious)
  {}

  lemma FutureAdd<V>(f: Entry<V> -> seq<Row<V>>, a: seq<Entry<V>>, b: seq<Entry<V>>)
    ensures multiset(FlatMap(f, a + b)) == multiset(FlatMap(f, a)) + multiset(FlatMap(f, b))
  {
    FlatMapConcat(f, a, b);
  }

  lemma AddBoth<T>(x: multiset<T>, y: multiset<T>, missed: multiset<T>, spurious: multiset<T>, due: multiset<T>,
      got: multiset<T>)
    requires x + missed == y + spurious
    ensures (x + got) + (missed + due) == (y + due) + (spurious + got)
  {
    assert (x + got) + (missed + due) == (x + missed) + (got + due);
    assert (y + due) + (spurious + got) == (y + spurious) + (got + due);
  }

  lemma Cancel<T>(x: multiset<T>, y: multiset<T>, missed: multiset<T>, spurious: multiset<T>, both: multiset<T>)
    requires x + (missed + both) == y + (spurious + both)
    ensures x + missed == y + spurious
  {
    forall e ensures (x + missed)[e] == (y + spurious)[e] {
      assert (x + (missed + both))[e] == (y + (spurious + both))[e];
    }
  }

  lemma TracksLess<V>(whens: seq<When<V>>, k: nat, tset: seq<Staged<V>>, sonly: seq<Row<V>>, table: seq<Entry<V>>,
      inserted: seq<Entry<V>>, missed: multiset<Row<V>>, spurious: multiset<Row<V>>, both: multiset<Row<V>>)
    requires Tracks(whens, k, tset, sonly, table, inserted, missed + both, spurious + both)
    ensures Tracks(whens, k, tset, sonly, table, inserted, missed, spurious)
  {
    hide FlatMap, Future, AllInserts, LeftStep;
    Cancel(multiset(FlatMap(Future(whens[k..], tset), inserted)), multiset(FlatMap(AllInserts(whens[..k]), sonly)),
      missed, spurious, both);
  }

  lemma TracksStart<V>(whens: seq<When<V>>, tset: seq<Staged<V>>, sonly: seq<Row<V>>, target: seq<Entry<V>>)
    requires Stages(tset, target)
    ensures Tracks(whens, 0, tset, sonly, target, [], multiset{}, multiset{})
  {
    assert whens[..0] == [];
    NothingInTurn(tset, target);
    NoClauseAdds(sonly);
    assert target + [] == target;
  }

  lemma TracksEnd<V>(whens: seq<When<V>>, tset: seq<Staged<V>>, sonly: seq<Row<V>>, table: seq<Entry<V>>,
      inserted: seq<Entry<V>>, missed: multiset<Row<V>>, spurious: multiset<Row<V>>)
    requires Tracks(whens, |whens|, tset, sonly, table, inserted, missed, spurious)
    ensures table == FlatMap(LeftStep(whens), tset) + inserted
    ensures multiset(RowsOf(inserted)) + missed == multiset(FlatMap(AllInserts(whens), sonly)) + spurious
  {
    assert whens[..|whens|] == whens && whens[|whens|..] == [];
    NoFuture(tset, inserted);
  }

  // ----- runs that spare the rows they insert -----

  lemma KeepsIff<V>(whens: seq<When<V>>, r: Row<V>, p: Pair<V>)
    requires AllSupported(whens) && p.t.Some?
    ensures InTurn(whens, Some(r), p) == Some(r) <==> Keeps(whens, r, p)
  {
    InTurnOverrides(whens, r, p);
    SameAfterOverride(r, Overrides(whens, p));
  }

  /** A rowid that is free after k clauses belongs to a deleted target row, or to none. */
  lemma FreeId<V>(whens: seq<When<V>>, tset: seq<Staged<V>>, table: seq<Entry<V>>, st: Staged<V>)
    requires AllSupported(whens) && st in tset && (forall e :: e in FlatMap(LeftStep(whens), tset) ==> e in table)
    requires forall e :: e in table ==> e.rowid != st.rowid
    ensures DeletesIn(whens, Pair(Some(st.t), st.s))
  {
    var p := Pair(Some(st.t), st.s);
    InTurnOverrides(whens, st.t, p);
    var left := LeftStep(whens)(st);
    assert left != [] ==> left[0].rowid == st.rowid;
    if left != [] { FlatMapElems(LeftStep(whens), tset, left[0]); }
  }

  lemma FreeOf<V>(pre: seq<Entry<V>>, post: seq<Entry<V>>, e: Entry<V>)
    requires |pre| <= |post| && post[..|pre|] == pre && DistinctIds(post) && e in post[|pre|..]
    ensures e in post && !IdIn(e.rowid, pre) && forall x :: x in pre ==> x.rowid != e.rowid
  {
    var j :| |pre| <= j < |post| && post[j] == e;
    forall i | 0 <= i < |pre| ensures pre[i].rowid != e.rowid { assert post[i] == pre[i]; }
  }

  /** The inserted row comes from a source row. */
  lemma InsertedFor<V>(w: When<V>, sonly: seq<Row<V>>, added: seq<Entry<V>>, e: Entry<V>) returns (s: Row<V>)
    requires WhenStatement(w).Some? && WhenStatement(w).value.InsertSelect? && e in added
    requires RowsOf(added) == FlatMap(InsertStep(WhenStatement(w).value), sonly)
    ensures s in sonly && w.action.Insert? && Applies(w, Pair(None, Some(s)))
    ensures e.row == w.action.values(Pair(None, Some(s)))
  {
    var stmt := WhenStatement(w).value;
    var i :| 0 <= i < |added| && added[i] == e;
    assert RowsOf(added)[i] == e.row;
    FlatMapElems(InsertStep(stmt), sonly, e.row);
    s :| s in sonly && e.row in InsertStep(stmt)(s);
    WhenFires(w, Staged(0, s, None), s);
  }

  lemma {:induction false} SameFutures<V>(f: Entry<V> -> seq<Row<V>>, part: seq<Entry<V>>)
    requires forall e :: e in part ==> f(e) == [e.row]
    ensures FlatMap(f, part) == RowsOf(part)
    decreases |part|
  {
    if part != [] {
      SameFutures(f, part[1..]);
      assert RowsOf(part) == [part[0].row] + RowsOf(part[1..]);
    }
  }

  /** A row under the rowid of a deleted target row, where the clauses spare what they insert. */
  lemma SparedRow<V>(whens: seq<When<V>>, k: nat, target: seq<Entry<V>>, source: seq<Row<V>>, on: On<V>, st: Staged<V>,
      s: Row<V>)
    requires AllSupported(whens) && AllSpared(whens, RowsOf(target), source, on) && AtMostOneMatch(target, source, on)
    requires st in TSet(target, source, on) && s in SOnly(target, source, on) && k < |whens|
    requires whens[k].action.Insert? && Applies(whens[k], Pair(None, Some(s)))
    requires DeletesIn(whens[..k], Pair(Some(st.t), st.s))
    ensures var r := whens[k].action.values(Pair(None, Some(s)));
      InTurn(whens[k + 1..], Some(r), Pair(Some(st.t), st.s)) == Some(r)
  {
    var e := StagedWithMatch(target, source, on, st);
    InRowsOf(target, e);
    SOnlyElems(target, source, on, s);
    assert Unmatched(s, RowsOf(target), on);
    assert Spared(whens, k, s, e.row, source, on);
    assert AllSupported(whens[k + 1..]);
    hide AllSpared, TSet, SOnly, AllSupported, Keeps, DeletesIn, Applies;
    KeepsIff(whens[k + 1..], whens[k].action.values(Pair(None, Some(s))), Pair(Some(st.t), st.s));
  }

  lemma AddedSpared<V>(whens: seq<When<V>>, k: nat, target: seq<Entry<V>>, source: seq<Row<V>>, on: On<V>,
      pre: seq<Entry<V>>, post: seq<Entry<V>>, e: Entry<V>)
    requires AllSupported(whens) && AllSpared(whens, RowsOf(target), source, on) && AtMostOneMatch(target, source, on)
    requires k < |whens| && WhenStatement(whens[k]).Some? && WhenStatement(whens[k]).value.InsertSelect?
    requires Executes(WhenStatement(whens[k]).value, TSet(target, source, on), SOnly(target, source, on), pre, post)
    requires forall x :: x in FlatMap(LeftStep(whens[..k]), TSet(target, source, on)) ==> x in pre
    requires e in post[|pre|..]
    ensures Future(whens[k + 1..], TSet(target, source, on))(e) == [e.row]
  {
    var tset, w := TSet(target, source, on), whens[k];
    var s := InsertedFor(w, SOnly(target, source, on), post[|pre|..], e);
    FreeOf(pre, post, e);
    assert AllSupported(whens[..k]);
    hide FlatMap, InsertStep, TSet, SOnly, AllSpared, AllSupported, RowsOf, AtMostOneMatch, LeftStep, InTurn, Applies;
    hide DeletesIn, WhenStatement;
    if Owner(tset, e.rowid).Some? {
      var st := Owner(tset, e.rowid).value;
      FreeId(whens[..k], tset, pre, st);
      SparedRow(whens, k, target, source, on, st, s);
    }
  }

  lemma AddedApart<V>(rest: seq<When<V>>, tset: seq<Staged<V>>, target: seq<Entry<V>>, e: Entry<V>)
    requires Stages(tset, target) && !IdIn(e.rowid, target)
    ensures Future(rest, tset)(e) == [e.row]
  {
    assert forall i :: 0 <= i < |tset| ==> target[i].rowid == tset[i].rowid;
    assert forall st :: st in tset ==> IdIn(st.rowid, target);
  }

  /** The rows a run inserts stay as they are: no rowid is reused, or the clauses spare them. */
  ghost predicate Unhurt<V>(whens: seq<When<V>>, target: seq<Entry<V>>, source: seq<Row<V>>, on: On<V>,
      trace: seq<seq<Entry<V>>>) {
    NoReuse(target, trace) || AllSpared(whens, RowsOf(target), source, on)
  }

  /** A run on the target and the two snapshots. */
  ghost predicate RunOn<V>(whens: seq<When<V>>, target: seq<Entry<V>>, source: seq<Row<V>>, on: On<V>,
      trace: seq<seq<Entry<V>>>) {
    && Statements(whens).Some? && |trace| == |whens| + 1 && trace[0] == target
    && Run(Statements(whens).value, TSet(target, source, on), SOnly(target, source, on), trace)
  }

  lemma StagedDistinct<V>(target: seq<Entry<V>>, source: seq<Row<V>>, on: On<V>)
    requires AtMostOneMatch(target, source, on) && DistinctIds(target)
    ensures Stages(TSet(target, source, on), target) && DistinctStaged(TSet(target, source, on))
  {
    StagedOnce(target, source, on);
    hide TSet;
  }

  lemma NoneMissed<T>(a: multiset<T>, b: multiset<T>)
    requires a + multiset{} == b + multiset{}
    ensures a == b
  {
    assert a + multiset{} == a && b + multiset{} == b;
  }

  lemma RunLength<V>(whens: seq<When<V>>, target: seq<Entry<V>>, source: seq<Row<V>>, on: On<V>,
      trace: seq<seq<Entry<V>>>)
    requires RunOn(whens, target, source, on, trace)
    ensures Statements(whens).Some? && AllSupported(whens) && |trace| == |whens| + 1
  {
    StatementsAt(whens);
  }

  lemma RunAt<V>(whens: seq<When<V>>, target: seq<Entry<V>>, source: seq<Row<V>>, on: On<V>,
      trace: seq<seq<Entry<V>>>, k: nat)
    requires RunOn(whens, target, source, on, trace) && k < |whens|
    ensures AllSupported(whens) && WhenStatement(whens[k]).Some?
    ensures Executes(WhenStatement(whens[k]).value, TSet(target, source, on), SOnly(target, source, on), trace[k],
      trace[k + 1])
  {
    StatementsAt(whens);
    hide Executes, WhenStatement, TSet, SOnly;
  }

  lemma AddedUnhurt<V>(whens: seq<When<V>>, target: seq<Entry<V>>, source: seq<Row<V>>, on: On<V>,
      trace: seq<seq<Entry<V>>>, k: nat, inserted: seq<Entry<V>>)
    requires RunOn(whens, target, source, on, trace) && k < |whens| && Unhurt(whens, target, source, on, trace)
    requires WhenStatement(whens[k]).Some? && WhenStatement(whens[k]).value.InsertSelect?
    requires AtMostOneMatch(target, source, on) && Stages(TSet(target, source, on), target)
    requires trace[k] == FlatMap(LeftStep(whens[..k]), TSet(target, source, on)) + inserted
    requires |trace[k]| <= |trace[k + 1]|
    ensures var added := trace[k + 1][|trace[k]|..];
      FlatMap(Future(whens[k + 1..], TSet(target, source, on)), added) == RowsOf(added)
  {
    RunAt(whens, target, source, on, trace, k);
    var tset, pre, post := TSet(target, source, on), trace[k], trace[k + 1];
    var f, added := Future(whens[k + 1..], tset), post[|pre|..];
    forall e | e in added ensures f(e) == [e.row] {
      FreeOf(pre, post, e);
      if NoReuse(target, trace) {
        assert e in trace[k + 1] && !IdIn(e.rowid, trace[k]);
        hide *;
        AddedApart(whens[k + 1..], tset, target, e);
      } else {
        assert AllSpared(whens, RowsOf(target), source, on);
        hide *;
        AddedSpared(whens, k, target, source, on, pre, post, e);
      }
    }
    hide *;
    SameFutures(f, added);
  }

  lemma {:induction false} RunTracks<V>(whens: seq<When<V>>, target: seq<Entry<V>>, source: seq<Row<V>>, on: On<V>,
      trace: seq<seq<Entry<V>>>, k: nat) returns (inserted: seq<Entry<V>>)
    requires RunOn(whens, target, source, on, trace) && k <= |whens| && Unhurt(whens, target, source, on, trace)
    requires AtMostOneMatch(target, source, on) && DistinctIds(target)
    ensures Tracks(whens, k, TSet(target, source, on), SOnly(target, source, on), trace[k], inserted, multiset{},
      multiset{})
    decreases k
  {
    var tset, sonly := TSet(target, source, on), SOnly(target, source, on);
    StagedOnce(target, source, on);
    if k == 0 {
      assert trace[0] == target;
      hide *;
      inserted := [];
      TracksStart(whens, tset, sonly, target);
    } else {
      var before := RunTracks(whens, target, source, on, trace, k - 1);
      RunAt(whens, target, source, on, trace, k - 1);
      hide *;
      inserted := OneStep(whens, target, source, on, trace, k - 1, before);
    }
  }

  lemma OneStep<V>(whens: seq<When<V>>, target: seq<Entry<V>>, source: seq<Row<V>>, on: On<V>,
      trace: seq<seq<Entry<V>>>, k: nat, before: seq<Entry<V>>) returns (inserted: seq<Entry<V>>)
    requires RunOn(whens, target, source, on, trace) && k < |whens| && Unhurt(whens, target, source, on, trace)
    requires AtMostOneMatch(target, source, on)
    requires Stages(TSet(target, source, on), target) && DistinctStaged(TSet(target, source, on))
    requires Tracks(whens, k, TSet(target, source, on), SOnly(target, source, on), trace[k], before, multiset{},
      multiset{})
    ensures Tracks(whens, k + 1, TSet(target, source, on), SOnly(target, source, on), trace[k + 1], inserted,
      multiset{}, multiset{})
  {
    assert |trace| == |whens| + 1;
    hide *;
    var tset, sonly := TSet(target, source, on), SOnly(target, source, on);
    RunAt(whens, target, source, on, trace, k);
    if WhenStatement(whens[k]).value.InsertSelect? {
      StepInserts(whens, k, tset, sonly, trace[k], before, multiset{}, multiset{}, trace[k + 1]);
      TracksTable(whens, k, tset, sonly, trace[k], before, multiset{}, multiset{});
      AddedUnhurt(whens, target, source, on, trace, k, before);
      inserted := before + trace[k + 1][|trace[k]|..];
      TracksLess(whens, k + 1, tset, sonly, trace[k + 1], inserted, multiset{}, multiset{},
        multiset(RowsOf(trace[k + 1][|trace[k]|..])));
    } else {
      StepChanges(whens, k, tset, sonly, trace[k], before, multiset{}, multiset{}, trace[k + 1]);
      inserted := FlatMap(Effect(WhenStatement(whens[k]).value, tset), before);
    }
  }

  lemma TracksTable<V>(whens: seq<When<V>>, k: nat, tset: seq<Staged<V>>, sonly: seq<Row<V>>,
      table: seq<Entry<V>>, inserted: seq<Entry<V>>, missed: multiset<Row<V>>, spurious: multiset<Row<V>>)
    requires Tracks(whens, k, tset, sonly, table, inserted, missed, spurious)
    ensures k <= |whens| && table == FlatMap(LeftStep(whens[..k]), tset) + inserted
  {}

  // ----- exactly when they are the rows MERGE should insert -----

  /** All the inserts of a source row begin with the one that is due. */
  lemma {:induction false} FirstOfAll<V>(whens: seq<When<V>>, s: Row<V>) returns (more: seq<Row<V>>)
    requires AllSupported(whens)
    ensures InsertsInTurn(whens, s) == Inserted(whens, s) + more
    decreases |whens|
  {
    if whens == [] {
      more := [];
    } else {
      assert Supported(whens[0]);
      if Applies(whens[0], Pair(None, Some(s))) {
        more := InsertsInTurn(whens[1..], s);
      } else {
        assert forall i :: 0 <= i < |whens[1..]| ==> whens[1..][i] == whens[i + 1];
        more := FirstOfAll(whens[1..], s);
      }
    }
  }

  lemma {:induction false} AllOrMore<V>(whens: seq<When<V>>, part: seq<Row<V>>)
    requires AllSupported(whens)
    ensures |FlatMap(FirstInserts(whens), part)| <= |FlatMap(AllInserts(whens), part)|
    ensures |FlatMap(FirstInserts(whens), part)| == |FlatMap(AllInserts(whens), part)|
      <==> forall s :: s in part ==> InsertsInTurn(whens, s) == Inserted(whens, s)
    decreases |part|
  {
    if part != [] {
      AllOrMore(whens, part[1..]);
      var more := FirstOfAll(whens, part[0]);
      assert forall s :: s in part <==> s == part[0] || s in part[1..];
      hide InsertsInTurn, Inserted, AllSupported;
    }
  }

  lemma BagsIff<V>(whens: seq<When<V>>, part: seq<Row<V>>)
    requires AllSupported(whens)
    ensures multiset(FlatMap(AllInserts(whens), part)) == multiset(FlatMap(FirstInserts(whens), part))
      <==> forall s :: s in part ==> Single(whens, s)
  {
    var all, due := FlatMap(AllInserts(whens), part), FlatMap(FirstInserts(whens), part);
    AllOrMore(whens, part);
    assert |multiset(all)| == |all| && |multiset(due)| == |due|;
    if forall s :: s in part ==> InsertsInTurn(whens, s) == Inserted(whens, s) {
      SameFlatMap(AllInserts(whens), FirstInserts(whens), part);
    }
    forall s | s in part ensures InsertsInTurn(whens, s) == Inserted(whens, s) <==> Single(whens, s) {
      InsertsIff(whens, s);
    }
  }

  lemma DueInserts<V>(whens: seq<When<V>>, target: seq<Entry<V>>, source: seq<Row<V>>, on: On<V>)
    requires Statements(whens).Some?
    ensures FlatMap(FirstInserts(whens), SOnly(target, source, on))
      == FlatMap(SourceStep(whens, RowsOf(target), on), source)
  {
    SourcesDecided(whens, target, source, on);
    var f, g := FirstInserts(whens), InsertOutcome(Statements(whens).value);
    forall s | s in SOnly(target, source, on) ensures f(s) == g(s) { InsertIsDecided(whens, s); }
    SameFlatMap(f, g, SOnly(target, source, on));
  }

  lemma SingleIff<V>(whens: seq<When<V>>, target: seq<Entry<V>>, source: seq<Row<V>>, on: On<V>)
    ensures (forall s :: s in SOnly(target, source, on) ==> Single(whens, s))
      <==> SingleInserts(whens, RowsOf(target), source, on)
  {
    hide Single;
    forall s ensures s in SOnly(target, source, on) <==> s in source && Unmatched(s, RowsOf(target), on) {
      SOnlyElems(target, source, on, s);
      assert forall i :: 0 <= i < |target| ==> RowsOf(target)[i] == target[i].row;
    }
  }

  lemma DueTargets<V>(whens: seq<When<V>>, target: seq<Entry<V>>, source: seq<Row<V>>, on: On<V>)
    requires Statements(whens).Some? && AtMostOneMatch(target, source, on)
    ensures RowsOf(FlatMap(DecidedStep(whens), TSet(target, source, on)))
      == FlatMap(TargetStep(whens, source, on), RowsOf(target))
  {
    TargetsDecided(whens, target, source, on);
    var f, g := DecidedStep(whens), Outcome(Statements(whens).value);
    forall st | st in TSet(target, source, on) ensures f(st) == g(st) { OutcomeIsDecided(whens, st); }
    SameFlatMap(f, g, TSet(target, source, on));
  }


  lemma LeftHarmless<V>(whens: seq<When<V>>, target: seq<Entry<V>>, source: seq<Row<V>>, on: On<V>)
    requires AllSupported(whens) && DistinctStaged(TSet(target, source, on)) && AtMostOneMatch(target, source, on)
    ensures FlatMap(LeftStep(whens), TSet(target, source, on)) == FlatMap(DecidedStep(whens), TSet(target, source, on))
      <==> AllHarmless(whens, target, source, on)
  {
    LeftIff(whens, TSet(target, source, on));
    HarmlessStaged(whens, target, source, on);
    hide FlatMap, TSet, LeftStep, DecidedStep, Harmless, AtMostOneMatch, AllSupported, DistinctStaged;
  }

  lemma DueIff<V>(whens: seq<When<V>>, target: seq<Entry<V>>, source: seq<Row<V>>, on: On<V>)
    requires AllSupported(whens) && Statements(whens).Some?
    ensures multiset(FlatMap(AllInserts(whens), SOnly(target, source, on)))
      == multiset(FlatMap(SourceStep(whens, RowsOf(target), on), source))
      <==> SingleInserts(whens, RowsOf(target), source, on)
  {
    hide *;
    BagsIff(whens, SOnly(target, source, on));
    DueInserts(whens, target, source, on);
    SingleIff(whens, target, source, on);
  }

  /** With harmless clauses, the result is MERGE's exactly when the inserted rows are. */
  lemma MergedIff<V>(whens: seq<When<V>>, target: seq<Entry<V>>, source: seq<Row<V>>, on: On<V>,
      trace: seq<seq<Entry<V>>>, left: seq<Entry<V>>, inserted: seq<Entry<V>>)
    requires Statements(whens).Some? && AtMostOneMatch(target, source, on)
    requires trace != [] && trace[|trace| - 1] == left + inserted
    requires left == FlatMap(DecidedStep(whens), TSet(target, source, on))
    ensures Merged(whens, target, source, on, trace) <==>
      multiset(RowsOf(inserted)) == multiset(FlatMap(SourceStep(whens, RowsOf(target), on), source))
  {
    DueTargets(whens, target, source, on);
    RowsOfConcat(left, inserted);
    var due, added := FlatMap(TargetStep(whens, source, on), RowsOf(target)),
      FlatMap(SourceStep(whens, RowsOf(target), on), source);
    hide FlatMap, RowsOf, TSet, Statements, DecidedStep, TargetStep, SourceStep, AtMostOneMatch;
    assert MergeResult(whens, RowsOf(target), source, on) == due + added;
    assert multiset(due + added) == multiset(due) + multiset(added);
    SameRest(multiset(due), multiset(RowsOf(inserted)), multiset(added));
  }

  lemma SameRest<T>(a: multiset<T>, b: multiset<T>, c: multiset<T>)
    ensures a + b == a + c <==> b == c
  {
    if a + b == a + c {
      forall e ensures b[e] == c[e] { assert (a + b)[e] == (a + c)[e]; }
    }
  }

  /**
   A run that reuses no rowid, or whose clauses spare the rows they insert, leaves the target rows as MERGE should
   exactly when the clauses are harmless to each of them, inserts the rows MERGE should exactly when no two clauses
   apply to the same unmatched source row, and so has MERGE's result when both hold: disjoint clauses are not needed.
   */
  lemma RunIff<V>(whens: seq<When<V>>, target: seq<Entry<V>>, source: seq<Row<V>>, on: On<V>,
      trace: seq<seq<Entry<V>>>) returns (left: seq<Entry<V>>, inserted: seq<Entry<V>>)
    requires DistinctIds(target) && AtMostOneMatch(target, source, on)
    requires RunOn(whens, target, source, on, trace) && Unhurt(whens, target, source, on, trace)
    ensures trace[|trace| - 1] == left + inserted && left == FlatMap(LeftStep(whens), TSet(target, source, on))
    ensures left == FlatMap(DecidedStep(whens), TSet(target, source, on)) <==> AllHarmless(whens, target, source, on)
    ensures multiset(RowsOf(inserted)) == multiset(FlatMap(SourceStep(whens, RowsOf(target), on), source))
      <==> SingleInserts(whens, RowsOf(target), source, on)
    ensures AllHarmless(whens, target, source, on) && SingleInserts(whens, RowsOf(target), source, on) ==>
      Merged(whens, target, source, on, trace)
  {
    hide *;
    var tset, sonly := TSet(target, source, on), SOnly(target, source, on);
    RunLength(whens, target, source, on, trace);
    StagedDistinct(target, source, on);
    inserted := RunTracks(whens, target, source, on, trace, |whens|);
    TracksEnd(whens, tset, sonly, trace[|whens|], inserted, multiset{}, multiset{});
    left := FlatMap(LeftStep(whens), tset);
    NoneMissed(multiset(RowsOf(inserted)), multiset(FlatMap(AllInserts(whens), sonly)));
    LeftHarmless(whens, target, source, on);
    DueIff(whens, target, source, on);
    if AllHarmless(whens, target, source, on) && SingleInserts(whens, RowsOf(target), source, on) {
      MergedIff(whens, target, source, on, trace, left, inserted);
    }
  }

  // ----- a run that hits a row it inserted -----

  ghost predicate Below<V>(table: seq<Entry<V>>, tset: seq<Staged<V>>, id: nat) {
    && (forall e :: e in table ==> e.rowid < id)
    && (forall st :: st in tset ==> st.rowid < id)
  }

  ghost predicate Apart<V>(table: seq<Entry<V>>, tset: seq<Staged<V>>) {
    forall e, st :: e in table && st in tset ==> e.rowid != st.rowid
  }

  /** Rows under new rowids. */
  function Numbered<V>(rows: seq<Row<V>>, id: nat): (r: seq<Entry<V>>)
    ensures |r| == |rows| && RowsOf(r) == rows
  {
    seq(|rows|, i requires 0 <= i < |rows| => Entry(id + i, rows[i]))
  }

  lemma NumberedIds<V>(pre: seq<Entry<V>>, tset: seq<Staged<V>>, rows: seq<Row<V>>, id: nat)
    requires DistinctIds(pre) && Below(pre, tset, id)
    ensures DistinctIds(pre + Numbered(rows, id)) && Below(pre + Numbered(rows, id), tset, id + |rows|)
    ensures Apart(Numbered(rows, id), tset)
  {
    forall i | 0 <= i < |pre| ensures pre[i].rowid < id { assert pre[i] in pre; }
  }

  lemma {:induction false} ApartFuture<V>(rest: seq<When<V>>, tset: seq<Staged<V>>, part: seq<Entry<V>>)
    requires Apart(part, tset)
    ensures FlatMap(Future(rest, tset), part) == RowsOf(part)
  {
    forall e | e in part ensures Future(rest, tset)(e) == [e.row] {
      assert Owner(tset, e.rowid).None?;
    }
    SameFutures(Future(rest, tset), part);
  }

  lemma EffectStays<V>(stmt: Stmt<V>, tset: seq<Staged<V>>, pre: seq<Entry<V>>, part: seq<Entry<V>>, id: nat)
    requires DistinctIds(pre) && Below(pre, tset, id)
    ensures var post := FlatMap(Effect(stmt, tset), pre); DistinctIds(post) && Below(post, tset, id)
    ensures DistinctIds(part) && Apart(part, tset) ==> Apart(FlatMap(Effect(stmt, tset), part), tset)
  {
    EffectIds(stmt, tset, pre);
    hide Effect, FlatMap;
    forall e | e in FlatMap(Effect(stmt, tset), pre) ensures e.rowid < id {
      var i :| 0 <= i < |pre| && pre[i].rowid == e.rowid;
      assert pre[i] in pre;
    }
    if DistinctIds(part) && Apart(part, tset) {
      EffectIds(stmt, tset, part);
      forall e, st | e in FlatMap(Effect(stmt, tset), part) && st in tset ensures e.rowid != st.rowid {
        var i :| 0 <= i < |part| && part[i].rowid == e.rowid;
        assert part[i] in part;
      }
    }
  }

  /** The table after k clauses of a run under construction; its rowids are below id. */
  ghost predicate Builds<V>(whens: seq<When<V>>, k: nat, tset: seq<Staged<V>>, sonly: seq<Row<V>>,
      table: seq<Entry<V>>, inserted: seq<Entry<V>>, missed: multiset<Row<V>>, spurious: multiset<Row<V>>, id: nat) {
    Tracks(whens, k, tset, sonly, table, inserted, missed, spurious) && DistinctIds(table) && Below(table, tset, id)
  }

  lemma TailDistinct<V>(a: seq<Entry<V>>, b: seq<Entry<V>>)
    requires DistinctIds(a + b)
    ensures DistinctIds(b)
  {
    forall i, j | 0 <= i < j < |b| ensures b[i].rowid != b[j].rowid {
      assert (a + b)[|a| + i] == b[i] && (a + b)[|a| + j] == b[j];
    }
  }

  lemma BuildChange<V>(whens: seq<When<V>>, k: nat, tset: seq<Staged<V>>, sonly: seq<Row<V>>, pre: seq<Entry<V>>,
      before: seq<Entry<V>>, missed: multiset<Row<V>>, spurious: multiset<Row<V>>, id: nat)
    returns (post: seq<Entry<V>>, inserted: seq<Entry<V>>)
    requires Builds(whens, k, tset, sonly, pre, before, missed, spurious, id) && k < |whens| && DistinctStaged(tset)
    requires WhenStatement(whens[k]).Some? && !WhenStatement(whens[k]).value.InsertSelect?
    ensures Executes(WhenStatement(whens[k]).value, tset, sonly, pre, post)
    ensures Builds(whens, k + 1, tset, sonly, post, inserted, missed, spurious, id)
    ensures Apart(before, tset) ==> Apart(inserted, tset)
  {
    var stmt := WhenStatement(whens[k]).value;
    hide FlatMap, Effect, LeftStep, WhenStatement, DistinctIds, DistinctStaged, Below, Apart;
    post, inserted := FlatMap(Effect(stmt, tset), pre), FlatMap(Effect(stmt, tset), before);
    TracksTable(whens, k, tset, sonly, pre, before, missed, spurious);
    TailDistinct(FlatMap(LeftStep(whens[..k]), tset), before);
    EffectStays(stmt, tset, pre, before, id);
    hide Tracks;
    StepChanges(whens, k, tset, sonly, pre, before, missed, spurious, post);
  }

  lemma AddExecutes<V>(stmt: Stmt<V>, tset: seq<Staged<V>>, sonly: seq<Row<V>>, pre: seq<Entry<V>>,
      added: seq<Entry<V>>)
    requires stmt.InsertSelect? && DistinctIds(pre + added) && RowsOf(added) == FlatMap(InsertStep(stmt), sonly)
    ensures Executes(stmt, tset, sonly, pre, pre + added) && (pre + added)[|pre|..] == added
  {
    hide DistinctIds, RowsOf, FlatMap, InsertStep;
    assert (pre + added)[|pre|..] == added && (pre + added)[..|pre|] == pre;
  }

  lemma BuildInsert<V>(whens: seq<When<V>>, k: nat, tset: seq<Staged<V>>, sonly: seq<Row<V>>, pre: seq<Entry<V>>,
      before: seq<Entry<V>>, missed: multiset<Row<V>>, spurious: multiset<Row<V>>, id: nat)
    returns (post: seq<Entry<V>>, inserted: seq<Entry<V>>, id': nat)
    requires Builds(whens, k, tset, sonly, pre, before, missed, spurious, id) && k < |whens|
    requires WhenStatement(whens[k]).Some? && WhenStatement(whens[k]).value.InsertSelect?
    ensures Executes(WhenStatement(whens[k]).value, tset, sonly, pre, post)
    ensures Builds(whens, k + 1, tset, sonly, post, inserted, missed, spurious, id')
    ensures Apart(before, tset) ==> Apart(inserted, tset)
  {
    var stmt := WhenStatement(whens[k]).value;
    var rows := FlatMap(InsertStep(stmt), sonly);
    var added := Numbered(rows, id);
    post, inserted, id' := pre + added, before + added, id + |rows|;
    NumberedIds(pre, tset, rows, id);
    hide FlatMap, InsertStep, WhenStatement, DistinctIds, Below, Numbered, RowsOf, Tracks;
    AddExecutes(stmt, tset, sonly, pre, added);
    StepInserts(whens, k, tset, sonly, pre, before, missed, spurious, post);
    ApartFuture(whens[k + 1..], tset, added);
    TracksLess(whens, k + 1, tset, sonly, post, inserted, missed, spurious, multiset(rows));
  }

  /** The deleted row is gone from the table, and its rowid with it. */
  lemma GoneId<V>(whens: seq<When<V>>, tset: seq<Staged<V>>, st: Staged<V>, e: Entry<V>)
    requires AllSupported(whens) && DistinctStaged(tset) && st in tset && DeletesIn(whens, Pair(Some(st.t), st.s))
    requires e in FlatMap(LeftStep(whens), tset)
    ensures e.rowid != st.rowid
  {
    InTurnOverrides(whens, st.t, Pair(Some(st.t), st.s));
    FlatMapElems(LeftStep(whens), tset, e);
    var st' :| st' in tset && e in LeftStep(whens)(st');
    assert e.rowid == st'.rowid;
    if st'.rowid == st.rowid { StagedById(tset, st, st'); }
  }

  /** One of the new rows takes a free rowid, the others new ones. */
  lemma TakenIds<V>(pre: seq<Entry<V>>, tset: seq<Staged<V>>, rows: seq<Row<V>>, id: nat, pos: nat, st: Staged<V>)
    requires DistinctIds(pre) && Below(pre, tset, id) && pos < |rows| && st in tset
    requires forall e :: e in pre ==> e.rowid != st.rowid
    ensures var added := Numbered(rows, id)[pos := Entry(st.rowid, rows[pos])];
      && DistinctIds(pre + added) && Below(pre + added, tset, id + |rows|) && RowsOf(added) == rows
      && Apart(added[..pos], tset) && Apart(added[pos + 1..], tset)
  {
    var added := Numbered(rows, id)[pos := Entry(st.rowid, rows[pos])];
    forall i | 0 <= i < |pre| ensures pre[i].rowid < id && pre[i].rowid != st.rowid { assert pre[i] in pre; }
    assert RowsOf(added) == rows;
    assert forall i :: 0 <= i < |rows| && i != pos ==> added[i].rowid == id + i;
    assert DistinctIds(pre + added);
  }

  lemma {:induction false} OneHit<V>(rest: seq<When<V>>, tset: seq<Staged<V>>, added: seq<Entry<V>>, pos: nat)
    requires pos < |added| && Apart(added[..pos], tset) && Apart(added[pos + 1..], tset)
    ensures multiset(FlatMap(Future(rest, tset), added)) + multiset{added[pos].row}
      == multiset(RowsOf(added)) + multiset(Future(rest, tset)(added[pos]))
  {
    var f, a, e, b := Future(rest, tset), added[..pos], added[pos], added[pos + 1..];
    ApartFuture(rest, tset, a);
    ApartFuture(rest, tset, b);
    assert added == a + ([e] + b);
    assert RowsOf([e]) == [e.row];
    hide *;
    FutureAdd(f, a, [e] + b);
    FutureAdd(f, [e], b);
    OneFlatMap(f, e);
    RowsOfConcat(a, [e] + b);
    RowsOfConcat([e], b);
    Regroups(multiset(RowsOf(a)), multiset(RowsOf(b)), multiset(f(e)), multiset{e.row});
  }

  lemma Regroups<T>(a: multiset<T>, b: multiset<T>, c: multiset<T>, d: multiset<T>)
    ensures (a + (c + b)) + d == (a + (d + b)) + c
  {
    assert (a + (c + b)) + d == (a + b) + (c + d);
    assert (a + (d + b)) + c == (a + b) + (c + d);
  }

  /** One inserted row is missed, and there is what the clauses to come make of it instead. */
  lemma HitTracks<V>(whens: seq<When<V>>, k: nat, tset: seq<Staged<V>>, sonly: seq<Row<V>>, table: seq<Entry<V>>,
      inserted: seq<Entry<V>>, due: multiset<Row<V>>, got: multiset<Row<V>>, missed: multiset<Row<V>>,
      spurious: multiset<Row<V>>)
    requires Tracks(whens, k, tset, sonly, table, inserted, multiset{} + due, multiset{} + got)
    requires got + missed == due + spurious
    ensures Tracks(whens, k, tset, sonly, table, inserted, missed, spurious)
  {
    hide FlatMap, Future, AllInserts, LeftStep;
    var x, y := multiset(FlatMap(Future(whens[k..], tset), inserted)), multiset(FlatMap(AllInserts(whens[..k]), sonly));
    assert multiset{} + due == due && multiset{} + got == got;
    assert x + due == y + got;
    assert x + (missed + due) == (x + due) + missed;
    assert y + (spurious + due) == y + (got + missed) == (y + got) + missed;
    Cancel(x, y, missed, spurious, due);
  }

  /** The row a clause inserts at a place. */
  ghost function HitRow<V>(w: When<V>, sonly: seq<Row<V>>, pos: nat): Row<V>
    requires WhenStatement(w).Some? && pos < |FlatMap(InsertStep(WhenStatement(w).value), sonly)|
  {
    FlatMap(InsertStep(WhenStatement(w).value), sonly)[pos]
  }

  lemma BuildHit<V>(whens: seq<When<V>>, k: nat, tset: seq<Staged<V>>, sonly: seq<Row<V>>, pre: seq<Entry<V>>,
      before: seq<Entry<V>>, id: nat, pos: nat, st: Staged<V>)
    returns (post: seq<Entry<V>>, inserted: seq<Entry<V>>, id': nat)
    requires Builds(whens, k, tset, sonly, pre, before, multiset{}, multiset{}, id) && Apart(before, tset)
    requires k < |whens| && WhenStatement(whens[k]).Some? && WhenStatement(whens[k]).value.InsertSelect?
    requires pos < |FlatMap(InsertStep(WhenStatement(whens[k]).value), sonly)| && st in tset
    requires AllSupported(whens[..k]) && DistinctStaged(tset) && DeletesIn(whens[..k], Pair(Some(st.t), st.s))
    ensures Executes(WhenStatement(whens[k]).value, tset, sonly, pre, post)
    ensures var r := HitRow(whens[k], sonly, pos);
      Builds(whens, k + 1, tset, sonly, post, inserted, multiset{r},
        multiset(Future(whens[k + 1..], tset)(Entry(st.rowid, r))), id')
  {
    var stmt := WhenStatement(whens[k]).value;
    var rows := FlatMap(InsertStep(stmt), sonly);
    var e := Entry(st.rowid, rows[pos]);
    var added := Numbered(rows, id)[pos := e];
    assert rows[pos] == HitRow(whens[k], sonly, pos);
    post, inserted, id' := pre + added, before + added, id + |rows|;
    assert forall x :: x in before ==> x.rowid != st.rowid;
    hide FlatMap, InsertStep, WhenStatement, DistinctIds, Below, Numbered, RowsOf, Tracks, LeftStep, DeletesIn;
    hide AllSupported, DistinctStaged, Apart, Future, Executes, HitRow;
    TracksTable(whens, k, tset, sonly, pre, before, multiset{}, multiset{});
    forall x | x in pre ensures x.rowid != st.rowid {
      if x !in before { GoneId(whens[..k], tset, st, x); }
    }
    TakenIds(pre, tset, rows, id, pos, st);
    AddExecutes(stmt, tset, sonly, pre, added);
    StepInserts(whens, k, tset, sonly, pre, before, multiset{}, multiset{}, post);
    OneHit(whens[k + 1..], tset, added, pos);
    HitTracks(whens, k + 1, tset, sonly, post, inserted, multiset(rows),
      multiset(FlatMap(Future(whens[k + 1..], tset), added)), multiset{rows[pos]},
      multiset(Future(whens[k + 1..], tset)(e)));
  }

  lemma {:induction false} IdBound<V>(table: seq<Entry<V>>) returns (id: nat)
    ensures forall e :: e in table ==> e.rowid < id
    decreases |table|
  {
    if table == [] {
      id := 0;
    } else {
      var n := IdBound(table[1..]);
      id := if n > table[0].rowid then n else table[0].rowid + 1;
    }
  }

  lemma BuildStart<V>(whens: seq<When<V>>, tset: seq<Staged<V>>, sonly: seq<Row<V>>, target: seq<Entry<V>>)
    returns (id: nat)
    requires Stages(tset, target) && DistinctIds(target)
    ensures Builds(whens, 0, tset, sonly, target, [], multiset{}, multiset{}, id)
  {
    TracksStart(whens, tset, sonly, target);
    id := IdBound(target);
    forall st | st in tset ensures st.rowid < id {
      var i :| 0 <= i < |tset| && tset[i] == st;
      assert target[i] in target;
    }
  }

  /** The first n statements of a run. */
  ghost predicate Begins<V>(whens: seq<When<V>>, n: nat, tset: seq<Staged<V>>, sonly: seq<Row<V>>,
      trace: seq<seq<Entry<V>>>) {
    && n <= |whens| && |trace| == n + 1 && AllSupported(whens)
    && forall i :: 0 <= i < n ==> Did(whens[i], tset, sonly, trace[i], trace[i + 1])
  }

  ghost predicate Did<V>(w: When<V>, tset: seq<Staged<V>>, sonly: seq<Row<V>>, pre: seq<Entry<V>>,
      post: seq<Entry<V>>) {
    WhenStatement(w).Some? && Executes(WhenStatement(w).value, tset, sonly, pre, post)
  }

  lemma BeginsNext<V>(whens: seq<When<V>>, n: nat, tset: seq<Staged<V>>, sonly: seq<Row<V>>,
      trace: seq<seq<Entry<V>>>, post: seq<Entry<V>>)
    requires Begins(whens, n, tset, sonly, trace) && n < |whens| && Did(whens[n], tset, sonly, trace[n], post)
    ensures Begins(whens, n + 1, tset, sonly, trace + [post])
  {
    hide Did;
    var next := trace + [post];
    forall i | 0 <= i < n + 1 ensures Did(whens[i], tset, sonly, next[i], next[i + 1]) {
      assert next[i] == trace[i];
      if i < n { assert next[i + 1] == trace[i + 1]; }
    }
  }

  /** The k-th clause may insert a row, its pos-th, under the rowid of a target row that was deleted before. */
  ghost predicate MayHit<V>(whens: seq<When<V>>, k: nat, tset: seq<Staged<V>>, sonly: seq<Row<V>>, pos: nat,
      st: Staged<V>) {
    && k < |whens| && WhenStatement(whens[k]).Some? && WhenStatement(whens[k]).value.InsertSelect?
    && pos < |FlatMap(InsertStep(WhenStatement(whens[k]).value), sonly)| && st in tset
    && DeletesIn(whens[..k], Pair(Some(st.t), st.s))
  }

  /** What such a hit misses and leaves instead, after n clauses. */
  ghost function MissedBy<V>(whens: seq<When<V>>, k: nat, tset: seq<Staged<V>>, sonly: seq<Row<V>>, pos: nat,
      st: Staged<V>, n: nat): multiset<Row<V>>
    requires MayHit(whens, k, tset, sonly, pos, st)
  {
    if n <= k then multiset{} else multiset{HitRow(whens[k], sonly, pos)}
  }

  ghost function LeftBy<V>(whens: seq<When<V>>, k: nat, tset: seq<Staged<V>>, sonly: seq<Row<V>>, pos: nat,
      st: Staged<V>, n: nat): multiset<Row<V>>
    requires MayHit(whens, k, tset, sonly, pos, st)
  {
    if n <= k then multiset{}
    else multiset(Future(whens[k + 1..], tset)(Entry(st.rowid, HitRow(whens[k], sonly, pos))))
  }

  lemma BuildNothing<V>(whens: seq<When<V>>, tset: seq<Staged<V>>, sonly: seq<Row<V>>, target: seq<Entry<V>>, k: nat,
      pos: nat, st: Staged<V>)
    requires AllSupported(whens) && MayHit(whens, k, tset, sonly, pos, st)
    ensures Begins(whens, 0, tset, sonly, [target]) && Apart([], tset)
    ensures MissedBy(whens, k, tset, sonly, pos, st, 0) == multiset{} == LeftBy(whens, k, tset, sonly, pos, st, 0)
  {
    hide MayHit, AllSupported;
  }

  lemma BeginsLength<V>(whens: seq<When<V>>, n: nat, tset: seq<Staged<V>>, sonly: seq<Row<V>>,
      trace: seq<seq<Entry<V>>>)
    requires Begins(whens, n, tset, sonly, trace)
    ensures |trace| == n + 1
  {}

  lemma {:induction false} Build<V>(whens: seq<When<V>>, n: nat, tset: seq<Staged<V>>, sonly: seq<Row<V>>,
      target: seq<Entry<V>>, k: nat, pos: nat, st: Staged<V>)
    returns (trace: seq<seq<Entry<V>>>, inserted: seq<Entry<V>>, id: nat)
    requires Stages(tset, target) && DistinctStaged(tset) && DistinctIds(target) && AllSupported(whens) && n <= |whens|
    requires MayHit(whens, k, tset, sonly, pos, st)
    ensures Begins(whens, n, tset, sonly, trace) && trace[0] == target && (n <= k ==> Apart(inserted, tset))
    ensures Builds(whens, n, tset, sonly, trace[n], inserted, MissedBy(whens, k, tset, sonly, pos, st, n),
      LeftBy(whens, k, tset, sonly, pos, st, n), id)
    decreases n
  {
    hide *;
    if n == 0 {
      trace, inserted := [target], [];
      id := BuildStart(whens, tset, sonly, target);
      BuildNothing(whens, tset, sonly, target, k, pos, st);
    } else {
      var pre, before, id0 := Build(whens, n - 1, tset, sonly, target, k, pos, st);
      BeginsLength(whens, n - 1, tset, sonly, pre);
      var post;
      post, inserted, id := BuildNext(whens, n - 1, tset, sonly, pre[n - 1], before, id0, k, pos, st);
      BeginsNext(whens, n - 1, tset, sonly, pre, post);
      trace := pre + [post];
    }
  }

  lemma BuildNext<V>(whens: seq<When<V>>, n: nat, tset: seq<Staged<V>>, sonly: seq<Row<V>>, pre: seq<Entry<V>>,
      before: seq<Entry<V>>, id: nat, k: nat, pos: nat, st: Staged<V>)
    returns (post: seq<Entry<V>>, inserted: seq<Entry<V>>, id': nat)
    requires DistinctStaged(tset) && AllSupported(whens) && n < |whens| && MayHit(whens, k, tset, sonly, pos, st)
    requires n <= k ==> Apart(before, tset)
    requires Builds(whens, n, tset, sonly, pre, before, MissedBy(whens, k, tset, sonly, pos, st, n),
      LeftBy(whens, k, tset, sonly, pos, st, n), id)
    ensures Did(whens[n], tset, sonly, pre, post) && (n < k ==> Apart(inserted, tset))
    ensures Builds(whens, n + 1, tset, sonly, post, inserted, MissedBy(whens, k, tset, sonly, pos, st, n + 1),
      LeftBy(whens, k, tset, sonly, pos, st, n + 1), id')
  {
    WhenSupported(whens[n]);
    assert AllSupported(whens[..k]);
    var missed, spurious := MissedBy(whens, k, tset, sonly, pos, st, n), LeftBy(whens, k, tset, sonly, pos, st, n);
    hide Builds, DistinctStaged, Apart, Executes, WhenStatement, FlatMap, Future, HitRow, DeletesIn, AllSupported;
    if n == k {
      post, inserted, id' := BuildHit(whens, k, tset, sonly, pre, before, id, pos, st);
    } else if WhenStatement(whens[n]).value.InsertSelect? {
      post, inserted, id' := BuildInsert(whens, n, tset, sonly, pre, before, missed, spurious, id);
    } else {
      post, inserted := BuildChange(whens, n, tset, sonly, pre, before, missed, spurious, id);
      id' := id;
    }
  }

  lemma BeginsRun<V>(whens: seq<When<V>>, target: seq<Entry<V>>, source: seq<Row<V>>, on: On<V>,
      trace: seq<seq<Entry<V>>>)
    requires Begins(whens, |whens|, TSet(target, source, on), SOnly(target, source, on), trace) && trace[0] == target
    ensures RunOn(whens, target, source, on, trace)
  {
    StatementsAt(whens);
    hide Executes, WhenStatement, TSet, SOnly, Statements;
    var stmts, tset, sonly := Statements(whens).value, TSet(target, source, on), SOnly(target, source, on);
    forall i | 0 <= i < |stmts| ensures Executes(stmts[i], tset, sonly, trace[i], trace[i + 1]) {
      assert Did(whens[i], tset, sonly, trace[i], trace[i + 1]);
    }
  }

  lemma RowEntry<V>(target: seq<Entry<V>>, t: Row<V>) returns (e: Entry<V>)
    requires t in RowsOf(target)
    ensures e in target && e.row == t
  {
    var i :| 0 <= i < |target| && RowsOf(target)[i] == t;
    e := target[i];
  }

  /** The place of the row a clause inserts for a source row. */
  lemma InsertPlace<V>(w: When<V>, sonly: seq<Row<V>>, s: Row<V>) returns (pos: nat)
    requires Supported(w) && w.action.Insert? && Applies(w, Pair(None, Some(s))) && s in sonly
    ensures WhenStatement(w).Some? && WhenStatement(w).value.InsertSelect?
    ensures pos < |FlatMap(InsertStep(WhenStatement(w).value), sonly)|
    ensures HitRow(w, sonly, pos) == w.action.values(Pair(None, Some(s)))
  {
    var r := w.action.values(Pair(None, Some(s)));
    WhenFires(w, Staged(0, s, None), s);
    assert r in InsertStep(WhenStatement(w).value)(s);
    FlatMapElems(InsertStep(WhenStatement(w).value), sonly, r);
    hide FlatMap, InsertStep;
    pos :| 0 <= pos < |FlatMap(InsertStep(WhenStatement(w).value), sonly)|
      && FlatMap(InsertStep(WhenStatement(w).value), sonly)[pos] == r;
  }

  /** A row that is not kept does not become itself. */
  lemma NotKept<V>(rest: seq<When<V>>, tset: seq<Staged<V>>, st: Staged<V>, r: Row<V>)
    requires AllSupported(rest) && DistinctStaged(tset) && st in tset && !Keeps(rest, r, Pair(Some(st.t), st.s))
    ensures multiset(Future(rest, tset)(Entry(st.rowid, r))) != multiset{r}
  {
    KeepsIff(rest, r, Pair(Some(st.t), st.s));
    StagedById(tset, st, Owner(tset, st.rowid).value);
    hide Keeps, InTurn, DistinctStaged, Owner;
    var f := Future(rest, tset)(Entry(st.rowid, r));
    if f != [] {
      assert f == [f[0]] && f[0] != r;
      assert f[0] in multiset(f);
    }
  }

  /** Rows inserted for s can take the rowid of t, and clauses that do not spare them then act on them. */
  lemma HitRun<V>(whens: seq<When<V>>, target: seq<Entry<V>>, source: seq<Row<V>>, on: On<V>, k: nat, s: Row<V>,
      t: Row<V>) returns (trace: seq<seq<Entry<V>>>)
    requires Statements(whens).Some? && DistinctIds(target) && AtMostOneMatch(target, source, on)
    requires AllHarmless(whens, target, source, on) && SingleInserts(whens, RowsOf(target), source, on)
    requires s in source && Unmatched(s, RowsOf(target), on) && t in RowsOf(target)
    requires !Spared(whens, k, s, t, source, on)
    ensures RunOn(whens, target, source, on, trace) && !Merged(whens, target, source, on, trace)
  {
    var tset, sonly := TSet(target, source, on), SOnly(target, source, on);
    StatementsAt(whens);
    var e := RowEntry(target, t);
    var st := Staged(e.rowid, e.row, MatchOf(e.row, source, on));
    var r := whens[k].action.values(Pair(None, Some(s)));
    assert Pair(Some(st.t), st.s) == TargetPair(t, source, on);
    assert AllSupported(whens) && AllSupported(whens[k + 1..]) && Supported(whens[k]);
    assert Applies(whens[k], Pair(None, Some(s))) && !Keeps(whens[k + 1..], r, Pair(Some(st.t), st.s));
    assert DeletesIn(whens[..k], Pair(Some(st.t), st.s));
    hide *;
    StagedDistinct(target, source, on);
    StagedTarget(target, source, on, e);
    UnmatchedStaged(target, source, on, s);
    var pos := InsertPlace(whens[k], sonly, s);
    NotKept(whens[k + 1..], tset, st, r);
    IsMayHit(whens, k, tset, sonly, pos, st);
    trace := HitEnds(whens, target, source, on, k, pos, st);
  }

  lemma UnmatchedStaged<V>(target: seq<Entry<V>>, source: seq<Row<V>>, on: On<V>, s: Row<V>)
    requires s in source && Unmatched(s, RowsOf(target), on)
    ensures s in SOnly(target, source, on)
  {
    SOnlyElems(target, source, on, s);
    assert forall i :: 0 <= i < |target| ==> RowsOf(target)[i] == target[i].row;
  }

  lemma IsMayHit<V>(whens: seq<When<V>>, k: nat, tset: seq<Staged<V>>, sonly: seq<Row<V>>, pos: nat, st: Staged<V>)
    requires k < |whens| && WhenStatement(whens[k]).Some? && WhenStatement(whens[k]).value.InsertSelect?
    requires pos < |FlatMap(InsertStep(WhenStatement(whens[k]).value), sonly)| && st in tset
    requires DeletesIn(whens[..k], Pair(Some(st.t), st.s))
    ensures MayHit(whens, k, tset, sonly, pos, st)
    ensures MissedBy(whens, k, tset, sonly, pos, st, |whens|) == multiset{HitRow(whens[k], sonly, pos)}
    ensures LeftBy(whens, k, tset, sonly, pos, st, |whens|)
      == multiset(Future(whens[k + 1..], tset)(Entry(st.rowid, HitRow(whens[k], sonly, pos))))
  {}

  lemma HitEnds<V>(whens: seq<When<V>>, target: seq<Entry<V>>, source: seq<Row<V>>, on: On<V>, k: nat, pos: nat,
      st: Staged<V>) returns (trace: seq<seq<Entry<V>>>)
    requires Statements(whens).Some? && AllSupported(whens) && DistinctIds(target) && AtMostOneMatch(target, source, on)
    requires AllHarmless(whens, target, source, on) && SingleInserts(whens, RowsOf(target), source, on)
    requires MayHit(whens, k, TSet(target, source, on), SOnly(target, source, on), pos, st)
    requires MissedBy(whens, k, TSet(target, source, on), SOnly(target, source, on), pos, st, |whens|)
      != LeftBy(whens, k, TSet(target, source, on), SOnly(target, source, on), pos, st, |whens|)
    ensures RunOn(whens, target, source, on, trace) && !Merged(whens, target, source, on, trace)
  {
    hide *;
    var tset, sonly := TSet(target, source, on), SOnly(target, source, on);
    StagedDistinct(target, source, on);
    var inserted, id;
    trace, inserted, id := Build(whens, |whens|, tset, sonly, target, k, pos, st);
    BeginsRun(whens, target, source, on, trace);
    RunLength(whens, target, source, on, trace);
    var missed, spurious := MissedBy(whens, k, tset, sonly, pos, st, |whens|),
      LeftBy(whens, k, tset, sonly, pos, st, |whens|);
    BuildsTracks(whens, |whens|, tset, sonly, trace[|whens|], inserted, missed, spurious, id);
    TracksEnd(whens, tset, sonly, trace[|whens|], inserted, missed, spurious);
    LeftHarmless(whens, target, source, on);
    DueIff(whens, target, source, on);
    MergedIff(whens, target, source, on, trace, FlatMap(LeftStep(whens), tset), inserted);
    SameRest(multiset(RowsOf(inserted)), missed, spurious);
  }

  lemma BuildsTracks<V>(whens: seq<When<V>>, k: nat, tset: seq<Staged<V>>, sonly: seq<Row<V>>,
      table: seq<Entry<V>>, inserted: seq<Entry<V>>, missed: multiset<Row<V>>, spurious: multiset<Row<V>>, id: nat)
    requires Builds(whens, k, tset, sonly, table, inserted, missed, spurious, id)
    ensures Tracks(whens, k, tset, sonly, table, inserted, missed, spurious)
  {}

  /**
   With harmless clauses and single inserts, every run, whatever rowids its inserts take, has MERGE's result exactly
   when no clause still to come for a deleted target row would change or delete a row inserted after the deletion.
   */
  lemma EveryRunIff<V>(whens: seq<When<V>>, target: seq<Entry<V>>, source: seq<Row<V>>, on: On<V>)
    requires Statements(whens).Some? && DistinctIds(target) && AtMostOneMatch(target, source, on)
    requires AllHarmless(whens, target, source, on) && SingleInserts(whens, RowsOf(target), source, on)
    ensures (forall trace :: RunOn(whens, target, source, on, trace) ==> Merged(whens, target, source, on, trace))
      <==> AllSpared(whens, RowsOf(target), source, on)
  {
    if AllSpared(whens, RowsOf(target), source, on) {
      forall trace | RunOn(whens, target, source, on, trace) ensures Merged(whens, target, source, on, trace) {
        assert Unhurt(whens, target, source, on, trace);
        hide *;
        var left, inserted := RunIff(whens, target, source, on, trace);
      }
    } else {
      var k: nat, s, t :| s in source && Unmatched(s, RowsOf(target), on) && t in RowsOf(target)
        && !Spared(whens, k, s, t, source, on);
      hide *;
      var trace := HitRun(whens, target, source, on, k, s, t);
    }
  }

  /** In the run that overwrites an inserted row, the last UPDATE does not spare it. */
  lemma ReuseNotSpared()
    ensures !AllSpared(ReuseWhens(), [map[0 := 0]], [map[0 := 3]], Never())
  {
    var t: Row<int>, s: Row<int>, whens := map[0 := 0], map[0 := 3], ReuseWhens();
    var p := TargetPair(t, [s], Never());
    assert MatchOf(t, [s][1..], Never()) == None;
    assert Applies(whens[0], p) && whens[..1][0] == whens[0] && DeletesIn(whens[..1], p);
    assert whens[2..] == [whens[2]] && [whens[2]][..0] == [];
    assert Overrides([whens[2]], p) == map[] + Assigned(whens[2], p) == map[0 := 9];
    assert 0 in Overrides(whens[2..], p) && !Keeps(whens[2..], map[0 := 5], p);
    assert !Spared(whens, 1, s, t, [s], Never());
  }
}

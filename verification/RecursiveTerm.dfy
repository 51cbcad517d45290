/**
 The recursive term as SQLite takes it. A row-wise term becomes a single SELECT. A UNION, found by looking through
 projections that only forward columns, becomes several: its recursive branches stay in the recursion, and its constant
 branches, under UNION DISTINCT, are computed once with the base.
 */
module RecursiveTerm {
  import opened Sequences
  import opened RecursivePipeline
  import opened RecursiveUnion

  // ----- looking through forwarding projections -----

  function ReplaceId(ids: seq<nat>, to: nat, src: nat): seq<nat> {
    seq(|ids|, i requires 0 <= i < |ids| => if ids[i] == to then src else ids[i])
  }

  predicate Forwards(computed: seq<(nat, Expr<nat>)>) {
    forall i :: 0 <= i < |computed| ==> computed[i].1.Ref?
  }

  /** The input column a forwarded column comes from. */
  function Source(id: nat, computed: seq<(nat, Expr<nat>)>): nat
    requires Forwards(computed)
  {
    if computed == [] then id
    else if computed[0].0 == id then computed[0].1.ref
    else Source(id, computed[1..])
  }

  function Sources(ids: seq<nat>, computed: seq<(nat, Expr<nat>)>): seq<nat>
    requires Forwards(computed)
  {
    seq(|ids|, i requires 0 <= i < |ids| => Source(ids[i], computed))
  }

  /** The set operation a scan forwards, when `ids` line up with its columns. */
  function PassThrough(s: Scan, ids: seq<nat>): (r: Option<Scan>)
    ensures r.Some? ==> r.value.SetOp?
  {
    match s
    case SetOp(_, cols, _) => if cols == ids then Some(s) else None
    case Project(input, _, computed) =>
      if Forwards(computed) then PassThrough(input, Sources(ids, computed)) else None
    case RecursiveRef(_) => None
    case Filter(_, _) => None
    case Join(_, _) => None
    case Rows(_, _) => None
  }

  /** The scan that the loop of PassThroughSetOperation stands at has unique computed columns. */
  predicate UniqueTargets(s: Scan) {
    match s
    case Project(input, _, computed) =>
      && UniqueTargets(input)
      && forall i, j :: 0 <= i < |computed| && 0 <= j < |computed| ==>
           (i != j ==> computed[i].0 != computed[j].0) && (computed[j].1.Ref? ==> computed[j].1.ref != computed[i].0)
    case _ => true
  }

  lemma {:induction false} SourceSkips(id: nat, computed: seq<(nat, Expr<nat>)>)
    requires Forwards(computed)
    requires forall i :: 0 <= i < |computed| ==> computed[i].0 != id
    ensures Source(id, computed) == id
    decreases |computed|
  {
    if computed != [] { SourceSkips(id, computed[1..]); }
  }

  lemma {:induction false} SourceAt(computed: seq<(nat, Expr<nat>)>, k: nat)
    requires Forwards(computed) && k < |computed|
    requires forall i, j :: 0 <= i < j < |computed| ==> computed[i].0 != computed[j].0
    ensures Source(computed[k].0, computed) == computed[k].1.ref
    decreases k
  {
    if k > 0 {
      var rest := computed[1..];
      assert rest[k - 1] == computed[k];
      SourceAt(rest, k - 1);
    }
  }

  /** Rewriting one target in every position, then the later ones, is rewriting all at once. */
  lemma SourcesStep(ids: seq<nat>, computed: seq<(nat, Expr<nat>)>)
    requires Forwards(computed) && computed != []
    requires forall i :: 0 <= i < |computed| ==> computed[0].1.ref != computed[i].0
    ensures Sources(ReplaceId(ids, computed[0].0, computed[0].1.ref), computed[1..]) == Sources(ids, computed)
  {
    var src := computed[0].1.ref;
    SourceSkips(src, computed[1..]);
  }

  /** The loop over projection layers, rewriting the column ids in place. */
  method PassThroughSetOperation(scan: Scan, out: seq<nat>) returns (r: Option<Scan>)
    requires UniqueTargets(scan)
    ensures r == PassThrough(scan, out)
  {
    var cur, ids := scan, out;
    while true
      invariant UniqueTargets(cur)
      invariant PassThrough(cur, ids) == PassThrough(scan, out)
      decreases cur
    {
      match cur {
        case SetOp(_, cols, _) =>
          return if cols == ids then Some(cur) else None;
        case Project(input, _, computed) =>
          var k := 0;
          ghost var start := ids;
          while k < |computed|
            invariant k <= |computed|
            invariant forall i :: 0 <= i < k ==> computed[i].1.Ref?
            invariant |ids| == |start|
            invariant Forwards(computed) ==> Sources(ids, computed[k..]) == Sources(start, computed)
          {
            var to, e := computed[k].0, computed[k].1;
            if !e.Ref? { return None; }
            var i := 0;
            ghost var before := ids;
            while i < |ids|
              invariant i <= |ids| == |before|
              invariant forall j :: 0 <= j < i ==> ids[j] == ReplaceId(before, to, e.ref)[j]
              invariant forall j :: i <= j < |ids| ==> ids[j] == before[j]
            {
              if ids[i] == to { ids := ids[i := e.ref]; }
              i := i + 1;
            }
            assert ids == ReplaceId(before, to, e.ref);
            if Forwards(computed) { SourcesStep(before, computed[k..]); }
            assert computed[k..][1..] == computed[k + 1..];
            k := k + 1;
          }
          assert Sources(ids, []) == ids;
          cur := input;
        case _ =>
          return None;
      }
    }
  }

  // ----- what is looked through, traced column by column -----

  /** A projection gives the column the value of an input column, or passes it on. */
  predicate Carries(computed: seq<(nat, Expr<nat>)>, id: nat, source: nat) {
    (id, Ref(source)) in computed || (id == source && forall e :: e in computed ==> e.0 != id)
  }

  /** The scans from the top of a stack of projections that compute column references only, down to its foot. */
  ghost predicate Stack(s: Scan, chain: seq<Scan>) {
    && chain != [] && chain[0] == s
    && forall k :: 0 <= k < |chain| - 1 ==>
      && chain[k].Project? && chain[k].input == chain[k + 1]
      && forall e :: e in chain[k].computed ==> e.1.Ref?
  }

  /** The column id at every scan of a stack. */
  ghost predicate Traced(chain: seq<Scan>, path: seq<nat>) {
    |path| == |chain| &&
    forall k :: 0 <= k < |chain| - 1 && chain[k].Project? ==> Carries(chain[k].computed, path[k], path[k + 1])
  }

  /** Through the stack the id denotes the column. */
  ghost predicate Denotes(chain: seq<Scan>, id: nat, column: nat) {
    exists path :: Traced(chain, path) && path != [] && path[0] == id && path[|path| - 1] == column
  }

  /** The scan forwards the set operation at the foot of a stack, the ids denoting its columns one by one. */
  ghost predicate ForwardsSetOp(s: Scan, ids: seq<nat>, so: Scan, chain: seq<Scan>) {
    && Stack(s, chain) && chain[|chain| - 1] == so && so.SetOp? && |ids| == |so.cols|
    && forall i :: 0 <= i < |ids| ==> Denotes(chain, ids[i], so.cols[i])
  }

  lemma {:induction false} SourceCarries(computed: seq<(nat, Expr<nat>)>, id: nat)
    requires Forwards(computed)
    ensures Carries(computed, id, Source(id, computed))
    decreases |computed|
  {
    if computed != [] && computed[0].0 != id {
      SourceCarries(computed[1..], id);
      assert computed == [computed[0]] + computed[1..];
    }
  }

  lemma CarriesOnce(computed: seq<(nat, Expr<nat>)>, id: nat, source: nat)
    requires Forwards(computed) && Carries(computed, id, source)
    requires forall i, j :: 0 <= i < j < |computed| ==> computed[i].0 != computed[j].0
    ensures source == Source(id, computed)
  {
    if (id, Ref(source)) in computed {
      var k :| 0 <= k < |computed| && computed[k] == (id, Ref(source));
      SourceAt(computed, k);
    } else {
      forall i | 0 <= i < |computed| ensures computed[i].0 != id { assert computed[i] in computed; }
      SourceSkips(id, computed);
    }
  }

  lemma StackStep(s: Scan, chain: seq<Scan>)
    requires Stack(s, chain) && |chain| > 1
    ensures s.Project? && Forwards(s.computed) && Stack(s.input, chain[1..])
  {
    var rest := chain[1..];
    assert forall k :: 0 <= k < |rest| ==> rest[k] == chain[k + 1];
    assert forall i :: 0 <= i < |s.computed| ==> s.computed[i] in s.computed;
  }

  lemma StackPush(s: Scan, chain: seq<Scan>)
    requires s.Project? && Forwards(s.computed) && Stack(s.input, chain)
    ensures Stack(s, [s] + chain)
  {
    var all := [s] + chain;
    assert forall k :: 1 <= k < |all| ==> all[k] == chain[k - 1];
  }

  lemma DenotesPush(s: Scan, chain: seq<Scan>, id: nat, column: nat)
    requires s.Project? && Forwards(s.computed) && Stack(s.input, chain)
    requires Denotes(chain, Source(id, s.computed), column)
    ensures Denotes([s] + chain, id, column)
  {
    var path :| Traced(chain, path) && path != [] && path[0] == Source(id, s.computed) && path[|path| - 1] == column;
    SourceCarries(s.computed, id);
    var all, whole := [s] + chain, [id] + path;
    forall k | 0 <= k < |all| - 1 && all[k].Project? ensures Carries(all[k].computed, whole[k], whole[k + 1]) {
      if k > 0 { assert all[k] == chain[k - 1] && whole[k] == path[k - 1] && whole[k + 1] == path[k]; }
    }
    assert Traced(all, whole) && whole[|whole| - 1] == column;
  }

  lemma DenotesPop(s: Scan, chain: seq<Scan>, id: nat, column: nat)
    requires Stack(s, chain) && |chain| > 1 && UniqueTargets(s) && Denotes(chain, id, column)
    ensures s.Project? && Forwards(s.computed) && Denotes(chain[1..], Source(id, s.computed), column)
  {
    StackStep(s, chain);
    var path :| Traced(chain, path) && path != [] && path[0] == id && path[|path| - 1] == column;
    assert Carries(chain[0].computed, path[0], path[1]);
    CarriesOnce(s.computed, id, path[1]);
    var rest, tail := chain[1..], path[1..];
    forall k | 0 <= k < |rest| - 1 && rest[k].Project? ensures Carries(rest[k].computed, tail[k], tail[k + 1]) {
      assert rest[k] == chain[k + 1] && tail[k] == path[k + 1] && tail[k + 1] == path[k + 2];
    }
    assert Traced(rest, tail);
  }

  lemma DenotesItself(s: Scan, id: nat, column: nat)
    ensures Denotes([s], id, column) <==> id == column
  {
    if id == column { assert Traced([s], [id]); }
    if Denotes([s], id, column) {
      var path :| Traced([s], path) && path != [] && path[0] == id && path[|path| - 1] == column;
    }
  }

  lemma {:induction false} PassThroughForwards(s: Scan, ids: seq<nat>) returns (chain: seq<Scan>)
    requires PassThrough(s, ids).Some?
    ensures ForwardsSetOp(s, ids, PassThrough(s, ids).value, chain)
    decreases s
  {
    if s.SetOp? {
      chain := [s];
      forall i | 0 <= i < |ids| ensures Denotes(chain, ids[i], s.cols[i]) { DenotesItself(s, ids[i], s.cols[i]); }
    } else {
      var below := Sources(ids, s.computed);
      var rest := PassThroughForwards(s.input, below);
      chain := [s] + rest;
      var so := PassThrough(s, ids).value;
      StackPush(s, rest);
      forall i | 0 <= i < |ids| ensures Denotes(chain, ids[i], so.cols[i]) {
        assert below[i] == Source(ids[i], s.computed);
        DenotesPush(s, rest, ids[i], so.cols[i]);
      }
    }
  }

  lemma {:induction false} ForwardsPassThrough(s: Scan, ids: seq<nat>, so: Scan, chain: seq<Scan>)
    requires UniqueTargets(s) && ForwardsSetOp(s, ids, so, chain)
    ensures PassThrough(s, ids) == Some(so)
    decreases s
  {
    if |chain| == 1 {
      assert chain == [s];
      forall i | 0 <= i < |ids| ensures ids[i] == so.cols[i] { DenotesItself(s, ids[i], so.cols[i]); }
      assert ids == so.cols;
    } else {
      StackStep(s, chain);
      var below := Sources(ids, s.computed);
      forall i | 0 <= i < |ids| ensures Denotes(chain[1..], below[i], so.cols[i]) {
        DenotesPop(s, chain, ids[i], so.cols[i]);
      }
      ForwardsPassThrough(s.input, below, so, chain[1..]);
    }
  }

  /** The set operation found is exactly the one the scan forwards. */
  lemma PassThroughIff(s: Scan, ids: seq<nat>, so: Scan)
    requires UniqueTargets(s)
    ensures PassThrough(s, ids) == Some(so) <==> exists chain :: ForwardsSetOp(s, ids, so, chain)
  {
    hide PassThrough, UniqueTargets, ForwardsSetOp;
    if PassThrough(s, ids) == Some(so) { var chain := PassThroughForwards(s, ids); }
    if chain :| ForwardsSetOp(s, ids, so, chain) { ForwardsPassThrough(s, ids, so, chain); }
  }

  /** Resolved scans have unique computed columns. */
  lemma {:induction false} WellFormedUnique(s: Scan)
    requires WellFormed(s)
    ensures UniqueTargets(s)
    decreases s
  {
    if s.Project? {
      WellFormedUnique(s.input);
      var computed := s.computed;
      forall i, j | 0 <= i < |computed| && 0 <= j < |computed|
        ensures (i != j ==> computed[i].0 != computed[j].0)
          && (computed[j].1.Ref? ==> computed[j].1.ref != computed[i].0)
      {
        var ts := Targets(computed);
        assert ts[i] == computed[i].0 && ts[j] == computed[j].0;
        if computed[j].1.Ref? { assert computed[j].1.ref in Refs(computed[j].1); }
      }
    }
  }

  lemma BoundKeys(cols: seq<nat>, rows: seq<Row>, env: Env)
    requires env in FlatMap(BindStep(cols), rows)
    ensures env.Keys == Elems(cols)
  {
    FlatMapElems(BindStep(cols), rows, env);
    var row :| row in rows && env in BindStep(cols)(row);
    BindColumns(cols, row);
  }

  lemma JoinedFrom(lefts: seq<Env>, rights: seq<Env>, env: Env) returns (l: Env, r: Env)
    requires env in FlatMap(JoinStep(rights), lefts)
    ensures l in lefts && r in rights && env == l + r
  {
    FlatMapElems(JoinStep(rights), lefts, env);
    l :| l in lefts && env in JoinStep(rights)(l);
    var i :| 0 <= i < |rights| && env == l + rights[i];
    r := rights[i];
  }

  /** Each row of a well-formed scan binds exactly the scan's columns. */
  lemma {:induction false} EvalKeys(s: Scan, cte: seq<Row>, fn: Interp, env: Env)
    requires WellFormed(s) && env in EvalScan(s, cte, fn)
    ensures env.Keys == Columns(s)
    decreases s
  {
    match s
    case RecursiveRef(cols) => BoundKeys(cols, cte, env);
    case Filter(input, cond) =>
      FlatMapElems(FilterStep(cond, fn), EvalScan(input, cte, fn), env);
      var env' :| env' in EvalScan(input, cte, fn) && env in FilterStep(cond, fn)(env');
      EvalKeys(input, cte, fn, env');
    case Project(input, cols, computed) =>
      FlatMapElems(ProjectStep(cols, computed, fn), EvalScan(input, cte, fn), env);
      var env' :| env' in EvalScan(input, cte, fn) && env in ProjectStep(cols, computed, fn)(env');
      EvalKeys(input, cte, fn, env');
      ComputeKeys(env', computed, fn);
    case SetOp(op, cols, items) => BoundKeys(cols, Combine(op, items, cte, fn), env);
    case Join(left, right) =>
      var l, r := JoinedFrom(EvalScan(left, cte, fn), EvalScan(right, cte, fn), env);
      EvalKeys(left, cte, fn, l);
      EvalKeys(right, cte, fn, r);
    case Rows(cols, rows) => BoundKeys(cols, rows, env);
  }

  lemma {:induction false} ComputeKeys(env: Env, computed: seq<(nat, Expr<nat>)>, fn: Interp)
    ensures Compute(env, computed, fn).Keys == Elems(Targets(computed))
    decreases |computed|
  {
    if computed != [] {
      var n := |computed| - 1;
      ComputeKeys(env, computed[..n], fn);
      assert Targets(computed) == Targets(computed[..n]) + [computed[n].0];
    }
  }

  lemma {:induction false} ComputeAt(env: Env, computed: seq<(nat, Expr<nat>)>, fn: Interp, k: nat)
    requires k < |computed| && Distinct(Targets(computed))
    ensures computed[k].0 in Compute(env, computed, fn)
    ensures Compute(env, computed, fn)[computed[k].0] == Eval(computed[k].1, EnvLookup(env), fn)
    decreases |computed|
  {
    var n := |computed| - 1;
    if k < n {
      assert Targets(computed)[k] != Targets(computed)[n];
      assert Distinct(Targets(computed[..n])) by {
        assert Targets(computed[..n]) == Targets(computed)[..n];
      }
      ComputeAt(env, computed[..n], fn, k);
    }
  }

  /** A forwarded column holds what its source column held below the projection. */
  lemma ForwardedValue(s: Scan, env: Env, fn: Interp, id: nat)
    requires s.Project? && WellFormed(s) && Forwards(s.computed)
    requires env.Keys == Columns(s.input) && id in s.cols
    ensures Get(ProjectEnv(env, s.cols, s.computed, fn), id) == Get(env, Source(id, s.computed))
    ensures Source(id, s.computed) in Columns(s.input)
  {
    ComputeKeys(env, s.computed, fn);
    assert id in Elems(s.cols);
    if k :| 0 <= k < |s.computed| && s.computed[k].0 == id {
      forall i, j | 0 <= i < j < |s.computed| ensures s.computed[i].0 != s.computed[j].0 {
        assert Targets(s.computed)[i] != Targets(s.computed)[j];
      }
      SourceAt(s.computed, k);
      ComputeAt(env, s.computed, fn, k);
      assert s.computed[k].1.ref in Refs(s.computed[k].1);
    } else {
      assert id !in Elems(Targets(s.computed));
      SourceSkips(id, s.computed);
    }
  }

  lemma {:induction false} ForwardedRows(s: Scan, ids: seq<nat>, envs: seq<Env>, fn: Interp)
    requires s.Project? && WellFormed(s) && Forwards(s.computed) && Elems(ids) <= Elems(s.cols)
    requires forall env :: env in envs ==> env.Keys == Columns(s.input)
    ensures FlatMap(OutStep(ids), FlatMap(ProjectStep(s.cols, s.computed, fn), envs))
         == FlatMap(OutStep(Sources(ids, s.computed)), envs)
    decreases |envs|
  {
    if envs != [] {
      hide WellFormed, Forwards, ProjectEnv, OutRow, Sources, Columns;
      var env' := ProjectEnv(envs[0], s.cols, s.computed, fn);
      ForwardedRows(s, ids, envs[1..], fn);
      FlatMapConcat(OutStep(ids), [env'], FlatMap(ProjectStep(s.cols, s.computed, fn), envs[1..]));
      FlatMapOne(OutStep(ids), env');
      ForwardedRow(s, ids, envs[0], fn);
    }
  }

  lemma ForwardedRow(s: Scan, ids: seq<nat>, env: Env, fn: Interp)
    requires s.Project? && WellFormed(s) && Forwards(s.computed) && Elems(ids) <= Elems(s.cols)
    requires env.Keys == Columns(s.input)
    ensures OutRow(ProjectEnv(env, s.cols, s.computed, fn), ids) == OutRow(env, Sources(ids, s.computed))
  {
    hide WellFormed, Forwards, ProjectEnv, Columns;
    forall i | 0 <= i < |ids|
      ensures Get(ProjectEnv(env, s.cols, s.computed, fn), ids[i]) == Get(env, Sources(ids, s.computed)[i])
    {
      assert ids[i] in Elems(ids);
      ForwardedValue(s, env, fn, ids[i]);
    }
  }

  lemma BindOutRow(cols: seq<nat>, row: Row)
    requires Distinct(cols) && |row| == |cols|
    ensures OutRow(Bind(cols, row), cols) == row
  {
    forall i | 0 <= i < |cols| ensures Get(Bind(cols, row), cols[i]) == At(row, i) {
      BindAt(cols, row, i);
    }
  }

  lemma {:induction false} BindRows(cols: seq<nat>, rows: seq<Row>)
    requires Distinct(cols) && forall row :: row in rows ==> |row| == |cols|
    ensures FlatMap(OutStep(cols), FlatMap(BindStep(cols), rows)) == rows
    decreases |rows|
  {
    if rows != [] {
      assert forall row :: row in rows[1..] ==> row in rows;
      BindRows(cols, rows[1..]);
      BindOutRow(cols, rows[0]);
      hide Bind, OutRow;
      var env := Bind(cols, rows[0]);
      FlatMapConcat(OutStep(cols), [env], FlatMap(BindStep(cols), rows[1..]));
      FlatMapOne(OutStep(cols), env);
      assert rows == [rows[0]] + rows[1..];
    }
  }

  lemma ItemWidth(item: Item, cte: seq<Row>, fn: Interp, row: Row)
    requires row in ItemRows(item, cte, fn)
    ensures |row| == |item.out|
  {
    FlatMapElems(OutStep(item.out), EvalScan(item.scan, cte, fn), row);
  }

  lemma {:induction false} KeepWithin(rows: seq<Row>, other: seq<Row>, present: bool, row: Row)
    requires row in Keep(rows, other, present)
    ensures row in rows
    decreases |rows|
  {
    if rows != [] && row in Keep(rows[1..], other, present) {
      KeepWithin(rows[1..], other, present, row);
    }
  }

  lemma {:induction false} CombineWidth(op: SetOpKind, items: seq<Item>, cte: seq<Row>, fn: Interp, width: nat,
      row: Row)
    requires forall i :: 0 <= i < |items| ==> |items[i].out| == width
    requires row in Combine(op, items, cte, fn)
    ensures |row| == width
    decreases |items|
  {
    var n := |items| - 1;
    if row in ItemRows(items[n], cte, fn) {
      ItemWidth(items[n], cte, fn, row);
    } else {
      var init, last := Combine(op, items[..n], cte, fn), ItemRows(items[n], cte, fn);
      if op == Intersect && row in Keep(init, last, true) { KeepWithin(init, last, true, row); }
      if op == Except && row in Keep(init, last, false) { KeepWithin(init, last, false, row); }
      CombineWidth(op, items[..n], cte, fn, width, row);
    }
  }

  /** Looking through forwarding projections keeps the rows and their column order. */
  lemma {:induction false} PassThroughSound(s: Scan, ids: seq<nat>, cte: seq<Row>, fn: Interp)
    requires WellFormed(s) && Elems(ids) <= Columns(s) && PassThrough(s, ids).Some?
    ensures var so := PassThrough(s, ids).value;
            && so.SetOp? && WellFormed(so)
            && FlatMap(OutStep(ids), EvalScan(s, cte, fn)) == Combine(so.op, so.items, cte, fn)
            && CollectRefs(so) == CollectRefs(s)
    decreases s
  {
    match s
    case SetOp(op, cols, items) =>
      forall row | row in Combine(op, items, cte, fn) ensures |row| == |cols| {
        CombineWidth(op, items, cte, fn, |cols|, row);
      }
      BindRows(cols, Combine(op, items, cte, fn));
    case Project(input, cols, computed) =>
      var ids' := Sources(ids, computed);
      forall id | id in ids' ensures id in Columns(input) {
        var i :| 0 <= i < |ids| && Source(ids[i], computed) == id;
        assert ids[i] in Elems(ids);
        SourceVisible(s, ids[i]);
      }
      forall env | env in EvalScan(input, cte, fn) ensures env.Keys == Columns(input) {
        EvalKeys(input, cte, fn, env);
      }
      ForwardedRows(s, ids, EvalScan(input, cte, fn), fn);
      PassThroughSound(input, ids', cte, fn);
  }

  lemma SourceVisible(s: Scan, id: nat)
    requires s.Project? && WellFormed(s) && Forwards(s.computed) && id in s.cols
    ensures Source(id, s.computed) in Columns(s.input)
  {
    assert id in Elems(s.cols);
    if k :| 0 <= k < |s.computed| && s.computed[k].0 == id {
      forall i, j | 0 <= i < j < |s.computed| ensures s.computed[i].0 != s.computed[j].0 {
        assert Targets(s.computed)[i] != Targets(s.computed)[j];
      }
      SourceAt(s.computed, k);
      assert s.computed[k].1.ref in Refs(s.computed[k].1);
    } else {
      assert id !in Elems(Targets(s.computed));
      SourceSkips(id, s.computed);
    }
  }

  // ----- recursive references -----

  /** The column lists of the recursive references in a scan, left to right. */
  function CollectRefs(s: Scan): seq<seq<nat>>
    decreases s
  {
    match s
    case RecursiveRef(cols) => [cols]
    case Filter(input, _) => CollectRefs(input)
    case Project(input, _, _) => CollectRefs(input)
    case SetOp(_, _, items) => ItemRefs(items)
    case Join(left, right) => CollectRefs(left) + CollectRefs(right)
    case Rows(_, _) => []
  }

  function ItemRefs(items: seq<Item>): seq<seq<nat>>
    decreases items
  {
    if items == [] then []
    else ItemRefs(items[..|items| - 1]) + CollectRefs(items[|items| - 1].scan)
  }

  // ----- the references are those of the tree -----

  function Child(s: Scan, i: nat): Option<Scan> {
    match s
    case Filter(input, _) => if i == 0 then Some(input) else None
    case Project(input, _, _) => if i == 0 then Some(input) else None
    case SetOp(_, _, items) => if i < |items| then Some(items[i].scan) else None
    case Join(left, right) => if i == 0 then Some(left) else if i == 1 then Some(right) else None
    case RecursiveRef(_) => None
    case Rows(_, _) => None
  }

  /** The scan reached by going from child to child. */
  function Node(s: Scan, path: seq<nat>): Option<Scan> {
    if path == [] then Some(s)
    else if Child(s, path[0]).None? then None
    else Node(Child(s, path[0]).value, path[1..])
  }

  /** One place of the tree for each of the references, in the same order, and no other place has one. */
  ghost predicate RefPlaces(s: Scan, refs: seq<seq<nat>>, places: seq<seq<nat>>) {
    && |places| == |refs|
    && (forall i :: 0 <= i < |refs| ==> Node(s, places[i]) == Some(RecursiveRef(refs[i])))
    && (forall i, j :: 0 <= i < j < |refs| ==> places[i] != places[j])
    && (forall path, cols :: Node(s, path) == Some(RecursiveRef(cols)) ==> path in places)
  }

  /** The places below one child. */
  ghost predicate ChildPlaces(s: Scan, i: nat, refs: seq<seq<nat>>, places: seq<seq<nat>>) {
    Child(s, i).Some? && RefPlaces(Child(s, i).value, refs, places)
  }

  function Below(i: nat, places: seq<seq<nat>>): seq<seq<nat>> {
    seq(|places|, k requires 0 <= k < |places| => [i] + places[k])
  }

  /** Places of the first n children. */
  ghost predicate FirstPlaces(s: Scan, n: nat, refs: seq<seq<nat>>, places: seq<seq<nat>>) {
    && |places| == |refs|
    && (forall i :: 0 <= i < |refs| ==> Node(s, places[i]) == Some(RecursiveRef(refs[i])))
    && (forall i :: 0 <= i < |refs| ==> places[i] != [] && places[i][0] < n)
    && (forall i, j :: 0 <= i < j < |refs| ==> places[i] != places[j])
    && (forall path, cols :: Node(s, path) == Some(RecursiveRef(cols)) && path != [] && path[0] < n ==> path in places)
  }

  lemma NodeBelow(s: Scan, i: nat, path: seq<nat>)
    requires Child(s, i).Some?
    ensures Node(s, [i] + path) == Node(Child(s, i).value, path)
  {
    assert ([i] + path)[1..] == path;
  }

  lemma NextAt(s: Scan, n: nat, refs: seq<seq<nat>>, places: seq<seq<nat>>, more: seq<seq<nat>>,
      below: seq<seq<nat>>, i: nat)
    requires FirstPlaces(s, n, refs, places) && ChildPlaces(s, n, more, below) && i < |refs| + |more|
    ensures var got := places + Below(n, below);
      i < |got| && Node(s, got[i]) == Some(RecursiveRef((refs + more)[i])) && got[i] != []
      && (if i < |refs| then got[i][0] < n else got[i] == [n] + below[i - |refs|])
  {
    hide Node, Child;
    if i >= |refs| { NodeBelow(s, n, below[i - |refs|]); }
  }

  lemma NextApart(s: Scan, n: nat, refs: seq<seq<nat>>, places: seq<seq<nat>>, more: seq<seq<nat>>,
      below: seq<seq<nat>>, i: nat, j: nat)
    requires FirstPlaces(s, n, refs, places) && ChildPlaces(s, n, more, below) && i < j < |refs| + |more|
    ensures var got := places + Below(n, below); |got| == |refs| + |more| && got[i] != got[j]
  {
    NextAt(s, n, refs, places, more, below, i);
    NextAt(s, n, refs, places, more, below, j);
    hide Node, Child;
    if i >= |refs| {
      var a, b := below[i - |refs|], below[j - |refs|];
      assert ([n] + a)[1..] == a && ([n] + b)[1..] == b;
    }
  }

  lemma NextFound(s: Scan, n: nat, refs: seq<seq<nat>>, places: seq<seq<nat>>, more: seq<seq<nat>>,
      below: seq<seq<nat>>, path: seq<nat>, cols: seq<nat>)
    requires FirstPlaces(s, n, refs, places) && ChildPlaces(s, n, more, below)
    requires Node(s, path) == Some(RecursiveRef(cols)) && path != [] && path[0] <= n
    ensures path in places + Below(n, below)
  {
    hide Node, Child;
    var got := places + Below(n, below);
    if path[0] == n {
      assert path == [n] + path[1..];
      NodeBelow(s, n, path[1..]);
      var k :| 0 <= k < |below| && below[k] == path[1..];
      assert got[|places| + k] == path;
    }
  }

  lemma NextPlaces(s: Scan, n: nat, refs: seq<seq<nat>>, places: seq<seq<nat>>, more: seq<seq<nat>>,
      below: seq<seq<nat>>)
    requires FirstPlaces(s, n, refs, places) && ChildPlaces(s, n, more, below)
    ensures FirstPlaces(s, n + 1, refs + more, places + Below(n, below))
  {
    var all, got := refs + more, places + Below(n, below);
    assert |got| == |all|;
    forall i | 0 <= i < |all| ensures Node(s, got[i]) == Some(RecursiveRef(all[i])) && got[i] != [] && got[i][0] <= n {
      NextAt(s, n, refs, places, more, below, i);
    }
    forall i, j | 0 <= i < j < |all| ensures got[i] != got[j] { NextApart(s, n, refs, places, more, below, i, j); }
    forall path, cols | Node(s, path) == Some(RecursiveRef(cols)) && path != [] && path[0] <= n ensures path in got {
      NextFound(s, n, refs, places, more, below, path, cols);
    }
    hide ChildPlaces, Node, Below;
  }

  lemma NoPlaces(s: Scan)
    ensures FirstPlaces(s, 0, [], [])
  {}

  lemma AllPlaces(s: Scan, n: nat, refs: seq<seq<nat>>, places: seq<seq<nat>>)
    requires FirstPlaces(s, n, refs, places) && !s.RecursiveRef? && forall i: nat :: Child(s, i).Some? ==> i < n
    ensures RefPlaces(s, refs, places)
  {
    forall path, cols | Node(s, path) == Some(RecursiveRef(cols)) ensures path in places {
      assert path != [] && Child(s, path[0]).Some?;
    }
  }

  /** The references collected are exactly the self-references of the tree, each once, from left to right. */
  lemma {:induction false} RefsAre(s: Scan) returns (places: seq<seq<nat>>)
    ensures RefPlaces(s, CollectRefs(s), places)
    decreases s
  {
    match s
    case RecursiveRef(cols) =>
      places := [[]];
      assert forall path :: Node(s, path).Some? ==> path == [];
    case Filter(input, _) => places := OneChild(s);
    case Project(input, _, _) => places := OneChild(s);
    case SetOp(_, _, items) =>
      places := ItemRefsAre(s, |items|);
      assert items[..|items|] == items;
      hide FirstPlaces, RefPlaces;
      AllPlaces(s, |items|, ItemRefs(items), places);
    case Join(left, right) => places := TwoChildren(s);
    case Rows(_, _) =>
      hide FirstPlaces, RefPlaces;
      NoPlaces(s);
      places := [];
      AllPlaces(s, 0, [], []);
  }

  lemma {:induction false} TwoChildren(s: Scan) returns (places: seq<seq<nat>>)
    requires s.Join?
    ensures RefPlaces(s, CollectRefs(s), places)
    decreases s, 0
  {
    hide FirstPlaces, RefPlaces;
    NoPlaces(s);
    var a := RefsAre(s.left);
    var b := RefsAre(s.right);
    var l, r := CollectRefs(s.left), CollectRefs(s.right);
    NextPlaces(s, 0, [], [], l, a);
    NextPlaces(s, 1, [] + l, [] + Below(0, a), r, b);
    places := [] + Below(0, a) + Below(1, b);
    assert [] + l + r == CollectRefs(s);
    AllPlaces(s, 2, CollectRefs(s), places);
  }

  lemma {:induction false} OneChild(s: Scan) returns (places: seq<seq<nat>>)
    requires s.Filter? || s.Project?
    ensures RefPlaces(s, CollectRefs(s), places)
    decreases s, 0
  {
    hide FirstPlaces, RefPlaces;
    var below := RefsAre(s.input);
    NoPlaces(s);
    NextPlaces(s, 0, [], [], CollectRefs(s.input), below);
    places := [] + Below(0, below);
    assert [] + CollectRefs(s.input) == CollectRefs(s);
    AllPlaces(s, 1, CollectRefs(s), places);
  }

  lemma {:induction false} ItemRefsAre(s: Scan, n: nat) returns (places: seq<seq<nat>>)
    requires s.SetOp? && n <= |s.items|
    ensures FirstPlaces(s, n, ItemRefs(s.items[..n]), places)
    decreases s, n
  {
    if n == 0 {
      places := [];
      NoPlaces(s);
    } else {
      var before := ItemRefsAre(s, n - 1);
      var below := RefsAre(s.items[n - 1].scan);
      assert s.items[..n][..n - 1] == s.items[..n - 1];
      NextPlaces(s, n - 1, ItemRefs(s.items[..n - 1]), before, CollectRefs(s.items[n - 1].scan), below);
      places := before + Below(n - 1, below);
    }
  }

  lemma {:induction false} ItemRefsHold(items: seq<Item>, k: nat, cols: seq<nat>)
    requires k < |items| && cols in CollectRefs(items[k].scan)
    ensures cols in ItemRefs(items)
    decreases |items|
  {
    if k < |items| - 1 { ItemRefsHold(items[..|items| - 1], k, cols); }
  }

  function CteColumns(cols: seq<nat>): map<nat, Expr<Target>> {
    if cols == [] then map[]
    else
      var n := |cols| - 1;
      CteColumns(cols[..n])[cols[n] := Ref(CteColumn(n))]
  }

  function BuildRefSubst(refs: seq<seq<nat>>): map<nat, Expr<Target>> {
    if refs == [] then map[]
    else BuildRefSubst(refs[..|refs| - 1]) + CteColumns(refs[|refs| - 1])
  }

  /** Column ids are unique, so one id never stands at two positions of recursive references. */
  predicate PositionsAgree(refs: seq<seq<nat>>) {
    forall a, b, i, j ::
      && 0 <= a < |refs| && 0 <= b < |refs| && 0 <= i < |refs[a]| && 0 <= j < |refs[b]|
      && refs[a][i] == refs[b][j]
      ==> i == j
  }

  lemma {:induction false} CteColumnsAt(cols: seq<nat>)
    ensures CteColumns(cols).Keys == Elems(cols)
    ensures forall id :: id in cols ==>
              exists i :: 0 <= i < |cols| && cols[i] == id && CteColumns(cols)[id] == Ref(CteColumn(i))
    decreases |cols|
  {
    if cols != [] {
      var n := |cols| - 1;
      CteColumnsAt(cols[..n]);
      assert cols == cols[..n] + [cols[n]];
      forall id | id in cols
        ensures exists i :: 0 <= i < |cols| && cols[i] == id && CteColumns(cols)[id] == Ref(CteColumn(i))
      {
        if id != cols[n] {
          var i :| 0 <= i < n && cols[..n][i] == id && CteColumns(cols[..n])[id] == Ref(CteColumn(i));
          assert cols[i] == id;
        }
      }
    }
  }

  lemma {:induction false} BuildRefSubstAt(refs: seq<seq<nat>>, a: nat, i: nat)
    requires PositionsAgree(refs) && a < |refs| && i < |refs[a]|
    ensures refs[a][i] in BuildRefSubst(refs) && BuildRefSubst(refs)[refs[a][i]] == Ref(CteColumn(i))
    decreases |refs|
  {
    var n, id := |refs| - 1, refs[a][i];
    CteColumnsAt(refs[n]);
    if id in refs[n] {
      var j :| 0 <= j < |refs[n]| && refs[n][j] == id && CteColumns(refs[n])[id] == Ref(CteColumn(j));
      assert i == j;
    } else {
      assert refs[..n][a] == refs[a];
      assert PositionsAgree(refs[..n]) by {
        forall b, c, k, l | 0 <= b < n && 0 <= c < n && 0 <= k < |refs[..n][b]| && 0 <= l < |refs[..n][c]|
          && refs[..n][b][k] == refs[..n][c][l]
          ensures k == l
        {
          assert refs[b][k] == refs[c][l];
        }
      }
      BuildRefSubstAt(refs[..n], a, i);
    }
  }

  ghost predicate BindsAll(refs: seq<seq<nat>>, subst: map<nat, Expr<Target>>) {
    forall cols, i :: cols in refs && 0 <= i < |cols| ==> cols[i] in subst && subst[cols[i]] == Ref(CteColumn(i))
  }

  lemma BuildRefSubstBinds(refs: seq<seq<nat>>)
    requires PositionsAgree(refs)
    ensures BindsAll(refs, BuildRefSubst(refs))
  {
    forall cols, i | cols in refs && 0 <= i < |cols|
      ensures cols[i] in BuildRefSubst(refs) && BuildRefSubst(refs)[cols[i]] == Ref(CteColumn(i))
    {
      var a :| 0 <= a < |refs| && refs[a] == cols;
      BuildRefSubstAt(refs, a, i);
    }
  }

  lemma {:induction false} BindsRefBound(s: Scan, subst: map<nat, Expr<Target>>)
    requires BindsAll(CollectRefs(s), subst)
    ensures RefBound(s, subst)
    decreases s
  {
    match s
    case RecursiveRef(cols) => assert cols in CollectRefs(s);
    case Filter(input, _) => BindsRefBound(input, subst);
    case Project(input, _, _) => BindsRefBound(input, subst);
    case SetOp(_, _, items) =>
      forall k | 0 <= k < |items| ensures RefBound(items[k].scan, subst) {
        forall cols | cols in CollectRefs(items[k].scan) ensures cols in CollectRefs(s) {
          ItemRefsHold(items, k, cols);
        }
        BindsRefBound(items[k].scan, subst);
      }
    case Join(left, right) =>
      BindsRefBound(left, subst);
      BindsRefBound(right, subst);
    case Rows(_, _) =>
  }

  /** A scan without a recursive reference has the same rows in every iteration. */
  lemma {:induction false} ConstantScan(s: Scan, cte: seq<Row>, fn: Interp)
    requires CollectRefs(s) == []
    ensures EvalScan(s, cte, fn) == EvalScan(s, [], fn)
    decreases s
  {
    match s
    case RecursiveRef(_) =>
    case Filter(input, _) => ConstantScan(input, cte, fn);
    case Project(input, _, _) => ConstantScan(input, cte, fn);
    case SetOp(op, _, items) => ConstantCombine(op, items, cte, fn);
    case Join(left, right) =>
      ConstantScan(left, cte, fn);
      ConstantScan(right, cte, fn);
    case Rows(_, _) =>
  }

  lemma {:induction false} ConstantCombine(op: SetOpKind, items: seq<Item>, cte: seq<Row>, fn: Interp)
    requires ItemRefs(items) == []
    ensures Combine(op, items, cte, fn) == Combine(op, items, [], fn)
    decreases items
  {
    if items != [] {
      var n := |items| - 1;
      ConstantScan(items[n].scan, cte, fn);
      ConstantCombine(op, items[..n], cte, fn);
    }
  }

  // ----- the lowering -----

  /** Branches to move next to the base term, and the recursive SELECTs. */
  datatype Plan = Plan(initial: seq<Item>, recursive: seq<Select>)

  function LowerItems(items: seq<Item>, refSubst: map<nat, Expr<Target>>, distinct: bool): Option<Plan> {
    if items == [] then Some(Plan([], []))
    else
      var last := items[|items| - 1];
      match LowerItems(items[..|items| - 1], refSubst, distinct)
      case None => None
      case Some(plan) =>
        if CollectRefs(last.scan) == [] then
          if distinct then Some(plan.(initial := plan.initial + [last])) else None
        else
          match FlatBranch(last, refSubst)
          case None => None
          case Some(sel) => Some(plan.(recursive := plan.recursive + [sel]))
  }

  function LowerTerm(term: Item, width: nat, distinct: bool): Option<Plan> {
    var refs := CollectRefs(term.scan);
    if exists a :: 0 <= a < |refs| && |refs[a]| != width then None
    else
      var refSubst := BuildRefSubst(refs);
      if |refs| == 1 && FlatBranch(term, refSubst).Some? then
        Some(Plan([], [FlatBranch(term, refSubst).value]))
      else
        match PassThrough(term.scan, term.out)
        case None => None
        case Some(so) =>
          if so.op == UnionAll || (so.op == UnionDistinct && distinct) then
            match LowerItems(so.items, refSubst, distinct)
            case None => None
            case Some(plan) => if plan.recursive == [] then None else Some(plan)
          else None
  }

  /** The branches with, or without, a self-reference, in their order. */
  function Among(items: seq<Item>, recursive: bool): seq<Item> {
    if items == [] then []
    else (if (CollectRefs(items[0].scan) != []) == recursive then [items[0]] else []) + Among(items[1..], recursive)
  }

  lemma {:induction false} AmongSnoc(items: seq<Item>, last: Item, recursive: bool)
    ensures Among(items + [last], recursive)
      == Among(items, recursive) + if (CollectRefs(last.scan) != []) == recursive then [last] else []
    decreases |items|
  {
    if items == [] {
      assert items + [last] == [last] && [last][1..] == [];
    } else {
      assert (items + [last])[1..] == items[1..] + [last];
      AmongSnoc(items[1..], last, recursive);
    }
  }

  /** The SELECTs are those of the branches, one by one. */
  ghost predicate SelectsOf(own: seq<Item>, selects: seq<Select>, refSubst: map<nat, Expr<Target>>) {
    |selects| == |own| && forall i :: 0 <= i < |own| ==> FlatBranch(own[i], refSubst) == Some(selects[i])
  }

  lemma SelectsSnoc(own: seq<Item>, selects: seq<Select>, item: Item, sel: Select, refSubst: map<nat, Expr<Target>>)
    requires SelectsOf(own, selects, refSubst) && FlatBranch(item, refSubst) == Some(sel)
    ensures SelectsOf(own + [item], selects + [sel], refSubst)
  {
    hide FlatBranch;
  }

  /** Constant branches and SELECTs keep the order of the branches. */
  lemma {:induction false} LowerItemsOrder(items: seq<Item>, refSubst: map<nat, Expr<Target>>, distinct: bool)
    requires LowerItems(items, refSubst, distinct).Some?
    ensures LowerItems(items, refSubst, distinct).value.initial == Among(items, false)
    ensures SelectsOf(Among(items, true), LowerItems(items, refSubst, distinct).value.recursive, refSubst)
    decreases |items|
  {
    if items != [] {
      var n := |items| - 1;
      assert LowerItems(items[..n], refSubst, distinct).Some?;
      LowerItemsOrder(items[..n], refSubst, distinct);
      var before, last := LowerItems(items[..n], refSubst, distinct).value, items[n];
      var plan := LowerItems(items, refSubst, distinct).value;
      if CollectRefs(last.scan) == [] {
        assert plan == before.(initial := before.initial + [last]);
      } else {
        assert plan == before.(recursive := before.recursive + [FlatBranch(last, refSubst).value]);
      }
      assert items == items[..n] + [last];
      hide *;
      AmongSnoc(items[..n], last, true);
      AmongSnoc(items[..n], last, false);
      if CollectRefs(last.scan) != [] {
        SelectsSnoc(Among(items[..n], true), before.recursive, last, FlatBranch(last, refSubst).value, refSubst);
      }
    }
  }

  lemma {:induction false} LowerItemsPrefix(items: seq<Item>, k: nat, refSubst: map<nat, Expr<Target>>, distinct: bool)
    requires k <= |items| && LowerItems(items[..k], refSubst, distinct).None?
    ensures LowerItems(items, refSubst, distinct).None?
    decreases |items| - k
  {
    if k == |items| {
      assert items[..k] == items;
    } else {
      assert items[..k + 1][..k] == items[..k];
      LowerItemsPrefix(items, k + 1, refSubst, distinct);
    }
  }

  /** The emission loop: each branch goes to one of two lists, or the lowering is given up. */
  method FormatBranches(items: seq<Item>, refSubst: map<nat, Expr<Target>>, distinct: bool) returns (r: Option<Plan>)
    ensures r == LowerItems(items, refSubst, distinct)
  {
    var initial: seq<Item>, recursive: seq<Select> := [], [];
    var k := 0;
    while k < |items|
      invariant k <= |items|
      invariant LowerItems(items[..k], refSubst, distinct) == Some(Plan(initial, recursive))
    {
      assert items[..k + 1][..k] == items[..k];
      if CollectRefs(items[k].scan) == [] {
        if !distinct { LowerItemsPrefix(items, k + 1, refSubst, distinct); return None; }
        initial := initial + [items[k]];
      } else {
        var sel := FlatBranch(items[k], refSubst);
        if sel.None? { LowerItemsPrefix(items, k + 1, refSubst, distinct); return None; }
        recursive := recursive + [sel.value];
      }
      k := k + 1;
    }
    assert items[..k] == items;
    return Some(Plan(initial, recursive));
  }

  method FormatFlatRecursiveTerm(term: Item, width: nat, distinct: bool) returns (r: Option<Plan>)
    requires UniqueTargets(term.scan)
    ensures r == LowerTerm(term, width, distinct)
  {
    hide LowerItems, FlatBranch, BuildRefSubst, PassThrough;
    var refs := CollectRefs(term.scan);
    if exists a :: 0 <= a < |refs| && |refs[a]| != width { return None; }
    var refSubst := BuildRefSubst(refs);
    if |refs| == 1 {
      var sel := FlatBranch(term, refSubst);
      if sel.Some? { return Some(Plan([], [sel.value])); }
    }
    var so := PassThroughSetOperation(term.scan, term.out);
    if so.None? { return None; }
    match so.value.op {
      case UnionAll =>
      case UnionDistinct => if !distinct { return None; }
      case _ => return None;
    }
    var plan := FormatBranches(so.value.items, refSubst, distinct);
    return if plan.Some? && plan.value.recursive == [] then None else plan;
  }

  // ----- the lowered term computes the term -----

  function RunAll(sels: seq<Select>, row: Row, fn: Interp): seq<Row> {
    if sels == [] then []
    else RunAll(sels[..|sels| - 1], row, fn) + SelectStep(sels[|sels| - 1], fn)(row)
  }

  /** What the recursive SELECTs of a plan produce for one row of the queue. */
  function StepAll(sels: seq<Select>, fn: Interp): Row -> seq<Row> {
    (row: Row) => RunAll(sels, row, fn)
  }

  function InitialRows(items: seq<Item>, fn: Interp): seq<Row> {
    if items == [] then []
    else InitialRows(items[..|items| - 1], fn) + ItemRows(items[|items| - 1], [], fn)
  }

  function TermFn(term: Item, fn: Interp): seq<Row> -> seq<Row> {
    (cte: seq<Row>) => ItemRows(term, cte, fn)
  }

  /** Running one more SELECT per row adds, as a bag, what that SELECT makes of the whole table. */
  lemma {:induction false} StepAllSnoc(sels: seq<Select>, sel: Select, cte: seq<Row>, fn: Interp)
    ensures multiset(FlatMap(StepAll(sels + [sel], fn), cte))
         == multiset(FlatMap(StepAll(sels, fn), cte)) + multiset(FlatMap(SelectStep(sel, fn), cte))
    decreases |cte|
  {
    if cte != [] {
      StepAllSnoc(sels, sel, cte[1..], fn);
      assert (sels + [sel])[..|sels|] == sels;
      assert RunAll(sels + [sel], cte[0], fn) == RunAll(sels, cte[0], fn) + SelectStep(sel, fn)(cte[0]);
    }
  }

  lemma {:induction false} StepAllNone(cte: seq<Row>, fn: Interp)
    ensures FlatMap(StepAll([], fn), cte) == []
    decreases |cte|
  {
    if cte != [] { StepAllNone(cte[1..], fn); }
  }

  ghost predicate ItemsFit(items: seq<Item>, refSubst: map<nat, Expr<Target>>) {
    forall i :: 0 <= i < |items| ==> WellFormedItem(items[i]) && RefBound(items[i].scan, refSubst)
  }

  /** Every branch of a UNION ALL is one recursive SELECT: the same bag of rows. */
  lemma {:induction false} LowerItemsBag(items: seq<Item>, refSubst: map<nat, Expr<Target>>, cte: seq<Row>, fn: Interp)
    requires ItemsFit(items, refSubst) && LowerItems(items, refSubst, false).Some?
    ensures var plan := LowerItems(items, refSubst, false).value;
            && plan.initial == []
            && multiset(Combine(UnionAll, items, cte, fn)) == multiset(FlatMap(StepAll(plan.recursive, fn), cte))
    decreases |items|
  {
    if items == [] {
      StepAllNone(cte, fn);
    } else {
      var n := |items| - 1;
      LowerItemsBag(items[..n], refSubst, cte, fn);
      var init := LowerItems(items[..n], refSubst, false).value.recursive;
      FlatBranchSound(items[n], refSubst, cte, fn);
      StepAllSnoc(init, FlatBranch(items[n], refSubst).value, cte, fn);
      assert Combine(UnionAll, items, cte, fn) == Combine(UnionAll, items[..n], cte, fn) + ItemRows(items[n], cte, fn);
    }
  }

  /** A UNION as a set: the hoisted branches' rows, and what the recursive SELECTs make of the table. */
  lemma {:induction false} LowerItemsSet(op: SetOpKind, items: seq<Item>, refSubst: map<nat, Expr<Target>>,
      cte: seq<Row>, fn: Interp)
    requires op == UnionAll || op == UnionDistinct
    requires ItemsFit(items, refSubst) && LowerItems(items, refSubst, true).Some?
    ensures var plan := LowerItems(items, refSubst, true).value;
            forall x :: x in Combine(op, items, cte, fn) <==>
              x in InitialRows(plan.initial, fn) || x in FlatMap(StepAll(plan.recursive, fn), cte)
    decreases |items|
  {
    if items == [] {
      StepAllNone(cte, fn);
    } else {
      var n := |items| - 1;
      LowerItemsSet(op, items[..n], refSubst, cte, fn);
      var init := LowerItems(items[..n], refSubst, true).value;
      var last := ItemRows(items[n], cte, fn);
      forall x ensures x in Combine(op, items, cte, fn) <==> x in Combine(op, items[..n], cte, fn) || x in last {
        assert n == 0 ==> Combine(op, items[..n], cte, fn) == [];
      }
      if CollectRefs(items[n].scan) == [] {
        ConstantScan(items[n].scan, cte, fn);
        assert (init.initial + [items[n]])[..|init.initial|] == init.initial;
      } else {
        FlatBranchSound(items[n], refSubst, cte, fn);
        var sel := FlatBranch(items[n], refSubst).value;
        StepAllSnoc(init.recursive, sel, cte, fn);
        forall x ensures x in FlatMap(StepAll(init.recursive + [sel], fn), cte) <==>
                         x in FlatMap(StepAll(init.recursive, fn), cte) || x in last {
          assert x in FlatMap(StepAll(init.recursive + [sel], fn), cte) <==>
                 x in multiset(FlatMap(StepAll(init.recursive + [sel], fn), cte));
        }
      }
    }
  }

  /** The recursive references of a term have unique columns. */
  predicate WellFormedTerm(term: Item) {
    WellFormedItem(term) && PositionsAgree(CollectRefs(term.scan))
  }

  lemma SingleStep(sel: Select, cte: seq<Row>, fn: Interp)
    ensures multiset(FlatMap(StepAll([sel], fn), cte)) == multiset(FlatMap(SelectStep(sel, fn), cte))
  {
    StepAllNone(cte, fn);
    StepAllSnoc([], sel, cte, fn);
    assert [] + [sel] == [sel];
  }

  lemma SetOpItemsFit(so: Scan, refSubst: map<nat, Expr<Target>>)
    requires so.SetOp? && WellFormed(so) && RefBound(so, refSubst)
    ensures ItemsFit(so.items, refSubst)
  {}

  lemma TermBag(term: Item, width: nat, cte: seq<Row>, fn: Interp)
    requires WellFormedTerm(term) && LowerTerm(term, width, false).Some?
    ensures var plan := LowerTerm(term, width, false).value;
            && plan.initial == []
            && multiset(TermFn(term, fn)(cte)) == multiset(FlatMap(StepAll(plan.recursive, fn), cte))
  {
    var refs := CollectRefs(term.scan);
    var refSubst := BuildRefSubst(refs);
    BuildRefSubstBinds(refs);
    if |refs| == 1 && FlatBranch(term, refSubst).Some? {
      BindsRefBound(term.scan, refSubst);
      FlatBranchSound(term, refSubst, cte, fn);
      SingleStep(FlatBranch(term, refSubst).value, cte, fn);
    } else {
      PassThroughSound(term.scan, term.out, cte, fn);
      var so := PassThrough(term.scan, term.out).value;
      BindsRefBound(so, refSubst);
      SetOpItemsFit(so, refSubst);
      LowerItemsBag(so.items, refSubst, cte, fn);
    }
  }

  lemma TermSet(term: Item, width: nat, cte: seq<Row>, fn: Interp, x: Row)
    requires WellFormedTerm(term) && LowerTerm(term, width, true).Some?
    ensures var plan := LowerTerm(term, width, true).value;
            x in TermFn(term, fn)(cte) <==>
            x in InitialRows(plan.initial, fn) || x in FlatMap(StepAll(plan.recursive, fn), cte)
  {
    var refs := CollectRefs(term.scan);
    var refSubst := BuildRefSubst(refs);
    BuildRefSubstBinds(refs);
    if |refs| == 1 && FlatBranch(term, refSubst).Some? {
      var sel := FlatBranch(term, refSubst).value;
      BindsRefBound(term.scan, refSubst);
      FlatBranchSound(term, refSubst, cte, fn);
      SingleStep(sel, cte, fn);
      assert x in FlatMap(StepAll([sel], fn), cte) <==> x in multiset(FlatMap(StepAll([sel], fn), cte));
    } else {
      PassThroughSound(term.scan, term.out, cte, fn);
      var so := PassThrough(term.scan, term.out).value;
      BindsRefBound(so, refSubst);
      SetOpItemsFit(so, refSubst);
      LowerItemsSet(so.op, so.items, refSubst, cte, fn);
    }
  }

  // ----- which terms are lowered -----

  /** Each branch is a row-wise pipeline; constant branches are allowed only under DISTINCT. */
  predicate BranchesFit(items: seq<Item>, distinct: bool) {
    forall i :: 0 <= i < |items| ==>
      if CollectRefs(items[i].scan) == [] then distinct else RowWise(items[i].scan, true)
  }

  lemma {:induction false} LowerItemsAccepts(items: seq<Item>, refSubst: map<nat, Expr<Target>>, distinct: bool)
    requires ItemsFit(items, refSubst)
    ensures LowerItems(items, refSubst, distinct).Some? <==> BranchesFit(items, distinct)
    ensures LowerItems(items, refSubst, distinct).Some? ==>
              (LowerItems(items, refSubst, distinct).value.recursive == [] <==> ItemRefs(items) == [])
    decreases |items|
  {
    if items != [] {
      var n := |items| - 1;
      LowerItemsAccepts(items[..n], refSubst, distinct);
      FlatBranchAccepts(items[n], refSubst);
      if BranchesFit(items, distinct) {
        forall i | 0 <= i < n
          ensures if CollectRefs(items[..n][i].scan) == [] then distinct else RowWise(items[..n][i].scan, true)
        {
          assert items[..n][i] == items[i];
        }
      }
      var fits := if CollectRefs(items[n].scan) == [] then distinct else RowWise(items[n].scan, true);
      if BranchesFit(items[..n], distinct) && fits {
        forall i | 0 <= i < |items|
          ensures if CollectRefs(items[i].scan) == [] then distinct else RowWise(items[i].scan, true)
        {
          if i < n { assert items[..n][i] == items[i]; }
        }
      }
    }
  }

  /** The set operation is a UNION that fits the recursion, all of whose branches can be lowered. */
  predicate LowersTo(so: Scan, distinct: bool) {
    && so.SetOp? && (so.op == UnionAll || (so.op == UnionDistinct && distinct))
    && BranchesFit(so.items, distinct) && ItemRefs(so.items) != []
  }

  /**
   The lowering is given up only when it must be: every self-reference has the width of the CTE, and the term is a
   row-wise pipeline over one self-reference, or forwards a UNION ALL (or, under DISTINCT, UNION) of such pipelines,
   at least one of them over the self-reference, with constant branches only under DISTINCT.
   */
  lemma LowerTermAccepts(term: Item, width: nat, distinct: bool)
    requires WellFormedTerm(term)
    ensures LowerTerm(term, width, distinct).Some? <==>
      && (forall cols :: cols in CollectRefs(term.scan) ==> |cols| == width)
      && (|| (|CollectRefs(term.scan)| == 1 && RowWise(term.scan, true))
          || exists so, chain :: ForwardsSetOp(term.scan, term.out, so, chain) && LowersTo(so, distinct))
  {
    var refs := CollectRefs(term.scan);
    var refSubst := BuildRefSubst(refs);
    assert WellFormedItem(term) && WellFormed(term.scan);
    LowerTermUnfolded(term, width, distinct);
    RefWidths(refs, width);
    BuildRefSubstBinds(refs);
    hide *;
    BindsRefBound(term.scan, refSubst);
    FlatBranchAccepts(term, refSubst);
    WellFormedUnique(term.scan);
    if PassThrough(term.scan, term.out).Some? {
      ForwardedAccepts(term, refSubst, distinct);
    } else if so, chain :| ForwardsSetOp(term.scan, term.out, so, chain) && LowersTo(so, distinct) {
      ForwardsPassThrough(term.scan, term.out, so, chain);
    }
  }

  lemma LowerTermUnfolded(term: Item, width: nat, distinct: bool)
    ensures var refs := CollectRefs(term.scan);
      var refSubst, through := BuildRefSubst(refs), PassThrough(term.scan, term.out);
      LowerTerm(term, width, distinct).Some? <==>
        && !(exists a :: 0 <= a < |refs| && |refs[a]| != width)
        && (|| (|refs| == 1 && FlatBranch(term, refSubst).Some?)
            || (through.Some? && (through.value.op == UnionAll || (through.value.op == UnionDistinct && distinct))
                && LowerItems(through.value.items, refSubst, distinct).Some?
                && LowerItems(through.value.items, refSubst, distinct).value.recursive != []))
  {
    hide CollectRefs, BuildRefSubst, PassThrough, FlatBranch, LowerItems;
  }

  lemma RefWidths(refs: seq<seq<nat>>, width: nat)
    ensures (exists a :: 0 <= a < |refs| && |refs[a]| != width) <==> !(forall cols :: cols in refs ==> |cols| == width)
  {
    if a :| 0 <= a < |refs| && |refs[a]| != width { assert refs[a] in refs; }
  }

  lemma ForwardedAccepts(term: Item, refSubst: map<nat, Expr<Target>>, distinct: bool)
    requires WellFormedTerm(term) && UniqueTargets(term.scan) && PassThrough(term.scan, term.out).Some?
    requires BindsAll(CollectRefs(term.scan), refSubst)
    ensures var so := PassThrough(term.scan, term.out).value;
      (exists so', chain :: ForwardsSetOp(term.scan, term.out, so', chain) && LowersTo(so', distinct)) <==>
        (so.op == UnionAll || (so.op == UnionDistinct && distinct)) && LowerItems(so.items, refSubst, distinct).Some?
        && LowerItems(so.items, refSubst, distinct).value.recursive != []
  {
    PassThroughSound(term.scan, term.out, [], (_, _) => Null);
    var so := PassThrough(term.scan, term.out).value;
    BindsRefBound(so, refSubst);
    SetOpItemsFit(so, refSubst);
    LowerItemsAccepts(so.items, refSubst, distinct);
    var chain := PassThroughForwards(term.scan, term.out);
    forall so', chain' | ForwardsSetOp(term.scan, term.out, so', chain') ensures so' == so {
      ForwardsPassThrough(term.scan, term.out, so', chain');
    }
    hide LowerItems, BranchesFit, ForwardsSetOp;
  }

  // ----- the recursive CTE -----

  lemma LoweredSplitsAsBag(term: Item, width: nat, fn: Interp)
    requires WellFormedTerm(term) && LowerTerm(term, width, false).Some?
    ensures var plan := LowerTerm(term, width, false).value;
            plan.initial == [] && SplitsAsBag(TermFn(term, fn), StepAll(plan.recursive, fn))
  {
    TermBag(term, width, [], fn);
    forall rows
      ensures multiset(TermFn(term, fn)(rows))
           == multiset(FlatMap(StepAll(LowerTerm(term, width, false).value.recursive, fn), rows))
    {
      TermBag(term, width, rows, fn);
    }
  }

  lemma LoweredSplitsAsSet(term: Item, width: nat, fn: Interp)
    requires WellFormedTerm(term) && LowerTerm(term, width, true).Some?
    ensures var plan := LowerTerm(term, width, true).value;
            SplitsAsSet(TermFn(term, fn), StepAll(plan.recursive, fn), InitialRows(plan.initial, fn))
  {
    var plan := LowerTerm(term, width, true).value;
    var step := StepAll(plan.recursive, fn);
    forall rows
      ensures Elems(TermFn(term, fn)(rows)) == Elems(InitialRows(plan.initial, fn)) + Image(step, Elems(rows))
    {
      forall x ensures x in Elems(TermFn(term, fn)(rows)) <==>
                       x in Elems(InitialRows(plan.initial, fn)) + Image(step, Elems(rows)) {
        TermSet(term, width, rows, fn, x);
        FlatMapElems(step, rows, x);
      }
    }
  }

  /**
   UNION DISTINCT, end to end: whenever the term is lowered, the queue run over the emitted
   SELECTs yields exactly the rows of the level-by-level iteration of the term, and one run
   stops exactly when the other does.
   */
  lemma RecursiveCteDistinct(base: seq<Row>, term: Item, width: nat, fn: Interp)
    requires WellFormedTerm(term) && LowerTerm(term, width, true).Some?
    ensures var plan := LowerTerm(term, width, true).value;
            var step, init := StepAll(plan.recursive, fn), base + InitialRows(plan.initial, fn);
            && (forall x :: LevelProduces(TermFn(term, fn), base, x) <==> QueueProduces(step, init, x))
            && (LevelEnds(TermFn(term, fn), base) <==> QueueEnds(step, init))
  {
    LoweredSplitsAsSet(term, width, fn);
    var plan := LowerTerm(term, width, true).value;
    var step, consts := StepAll(plan.recursive, fn), InitialRows(plan.initial, fn);
    hide *;
    DistinctSameRows(TermFn(term, fn), step, consts, base);
    DistinctSameTermination(TermFn(term, fn), step, consts, base);
  }

  /**
   If an empty base ends the recursion at once, the lowered CTE is right exactly when the base has a row or the
   hoisted branches have none.
   */
  lemma RecursiveCteEager(base: seq<Row>, term: Item, width: nat, fn: Interp)
    requires WellFormedTerm(term) && LowerTerm(term, width, true).Some?
    ensures var plan := LowerTerm(term, width, true).value;
            var step, consts := StepAll(plan.recursive, fn), InitialRows(plan.initial, fn);
            (forall x :: EagerProduces(TermFn(term, fn), base, x) <==> QueueProduces(step, base + consts, x))
            <==> (base != [] || consts == [])
  {
    LoweredSplitsAsSet(term, width, fn);
    var plan := LowerTerm(term, width, true).value;
    hide *;
    EagerSameRows(TermFn(term, fn), StepAll(plan.recursive, fn), InitialRows(plan.initial, fn), base);
  }

  /** UNION ALL, end to end: nothing is hoisted, and terminating runs yield the same bag of rows. */
  lemma RecursiveCteAll(base: seq<Row>, term: Item, width: nat, fn: Interp)
    requires WellFormedTerm(term) && LowerTerm(term, width, false).Some?
    ensures var plan := LowerTerm(term, width, false).value;
            var step := StepAll(plan.recursive, fn);
            && plan.initial == []
            && (AllLevelEnds(TermFn(term, fn), base) <==> AllQueueEnds(step, base))
            && (forall n: nat, m: nat :: AllLevelStops(TermFn(term, fn), base, n) && AllQueueStops(step, base, m) ==>
                  multiset(AllRows(TermFn(term, fn), base, n)) == multiset(AllQueue(step, base, m).out))
  {
    LoweredSplitsAsBag(term, width, fn);
    AllSameBag(TermFn(term, fn), StepAll(LowerTerm(term, width, false).value.recursive, fn), base);
  }

  // ----- a UNION ALL below a forwarding projection -----

  /** SELECT f(column) FROM the recursive reference. */
  function CallBranch(f: string, column: nat, result: nat): Item {
    Item(Project(RecursiveRef([column]), [result], [(result, Call(f, false, [Ref(column)]))]), [result])
  }

  function CallSelect(f: string): Select {
    Select([Call(f, false, [Ref(CteColumn(0))])], [])
  }

  lemma OneArgument(f: string, column: nat, refSubst: map<nat, Expr<Target>>)
    requires column in refSubst && refSubst[column] == Ref(CteColumn(0))
    ensures Refs(Call(f, false, [Ref(column)])) == {column}
    ensures Substitute(Call(f, false, [Ref(column)]), refSubst) == Call(f, false, [Ref(CteColumn(0))])
  {
    var e: Expr<nat> := Call(f, false, [Ref(column)]);
    assert Refs(e.args[0]) == {column};
    assert forall i :: 0 <= i < |e.args| ==> Refs(e.args[i]) == {column};
    var args := Substitute(e, refSubst).args;
    assert args[0] == Substitute(e.args[0], refSubst);
    assert args == [Ref(CteColumn(0))];
  }

  lemma OneComputed(result: nat, e: Expr<nat>, subst: map<nat, Expr<Target>>)
    ensures SubstComputed([(result, e)], subst) == map[result := Substitute(e, subst)]
  {
    var computed: seq<(nat, Expr<nat>)> := [(result, e)];
    assert computed[..0] == [];
    assert SubstComputed(computed[..0], subst) == map[];
    hide Substitute;
  }

  lemma CallBranchFlat(f: string, column: nat, result: nat, refSubst: map<nat, Expr<Target>>)
    requires column in refSubst && refSubst[column] == Ref(CteColumn(0)) && column != result
    ensures FlatBranch(CallBranch(f, column, result), refSubst) == Some(CallSelect(f))
    ensures CollectRefs(CallBranch(f, column, result).scan) == [[column]]
  {
    var e: Expr<nat> := Call(f, false, [Ref(column)]);
    var computed: seq<(nat, Expr<nat>)> := [(result, e)];
    OneArgument(f, column, refSubst);
    OneComputed(result, e, refSubst);
    hide Substitute, SubstComputed, Refs;
    assert Targets(computed) == [result];
    var selected := refSubst + SubstComputed(computed, refSubst);
    assert Flatten(RecursiveRef([column]), refSubst, false) == Some(FlatSelect([], refSubst));
    assert Flatten(CallBranch(f, column, result).scan, refSubst, true) == Some(FlatSelect([], selected));
    assert selected[result] == Call(f, false, [Ref(CteColumn(0))]);
    assert FlatBranch(CallBranch(f, column, result), refSubst).value.cols == CallSelect(f).cols;
  }

  lemma CallBranchWellFormed(f: string, column: nat, result: nat)
    requires column != result
    ensures WellFormedItem(CallBranch(f, column, result))
  {
    var e: Expr<nat> := Call(f, false, [Ref(column)]);
    var computed: seq<(nat, Expr<nat>)> := [(result, e)];
    OneArgument(f, column, map[column := Ref(CteColumn(0))]);
    hide Refs;
    var input := RecursiveRef([column]);
    assert WellFormed(input) && Columns(input) == {column};
    assert Targets(computed) == [result] && Refs(computed[0].1) == {column};
    assert WellFormed(Project(input, [result], computed));
  }

  lemma TwoReferences(a: Item, b: Item)
    ensures ItemRefs([a, b]) == CollectRefs(a.scan) + CollectRefs(b.scan)
  {
    assert [a, b][..1] == [a] && [a][..0] == [];
    assert ItemRefs([a]) == ItemRefs([a][..0]) + CollectRefs(a.scan);
    assert ItemRefs([a, b]) == ItemRefs([a, b][..1]) + CollectRefs(b.scan);
  }

  lemma OneMoreBranch(items: seq<Item>, last: Item, sel: Select, plan: Plan, refSubst: map<nat, Expr<Target>>,
      distinct: bool)
    requires items != [] && items[|items| - 1] == last
    requires LowerItems(items[..|items| - 1], refSubst, distinct) == Some(plan)
    requires FlatBranch(last, refSubst) == Some(sel) && CollectRefs(last.scan) != []
    ensures LowerItems(items, refSubst, distinct) == Some(plan.(recursive := plan.recursive + [sel]))
  {
    hide FlatBranch, CollectRefs;
  }

  lemma TwoBranches(a: Item, b: Item, sa: Select, sb: Select, refSubst: map<nat, Expr<Target>>, distinct: bool)
    requires FlatBranch(a, refSubst) == Some(sa) && FlatBranch(b, refSubst) == Some(sb)
    requires CollectRefs(a.scan) != [] && CollectRefs(b.scan) != []
    ensures LowerItems([a, b], refSubst, distinct) == Some(Plan([], [sa, sb]))
  {
    var one, two, none: seq<Select> := [a], [a, b], [];
    assert one[..0] == [] && two[..1] == one;
    assert LowerItems(one[..0], refSubst, distinct) == Some(Plan([], none));
    hide *;
    OneMoreBranch(one, a, sa, Plan([], none), refSubst, distinct);
    assert none + [sa] == [sa];
    OneMoreBranch(two, b, sb, Plan([], [sa]), refSubst, distinct);
    assert [sa] + [sb] == [sa, sb];
  }

  lemma ForwardOne(so: Scan, column: nat, forwarded: nat)
    requires so.SetOp? && so.cols == [column] && column != forwarded
    ensures PassThrough(Renamed(so, column, forwarded).scan, [forwarded]) == Some(so)
  {
    var computed: seq<(nat, Expr<nat>)> := [(forwarded, Ref(column))];
    assert Source(forwarded, computed) == column;
    assert Sources([forwarded], computed) == [column];
  }

  /** One projection that renames the only column of a set operation. */
  function Renamed(so: Scan, column: nat, forwarded: nat): Item {
    Item(Project(so, [forwarded], [(forwarded, Ref(column))]), [forwarded])
  }

  lemma RenamedWellFormed(so: Scan, column: nat, forwarded: nat)
    requires so.SetOp? && so.cols == [column] && column != forwarded && WellFormed(so)
    ensures WellFormedItem(Renamed(so, column, forwarded))
  {
    var computed: seq<(nat, Expr<nat>)> := [(forwarded, Ref(column))];
    assert Targets(computed) == [forwarded] && Refs(computed[0].1) == {column};
    assert computed[0].0 !in Columns(so);
  }

  lemma PairWellFormed(a: Item, b: Item, column: nat)
    requires WellFormedItem(a) && WellFormedItem(b) && |a.out| == |b.out| == 1
    ensures WellFormed(SetOp(UnionAll, [column], [a, b]))
  {
    var items := [a, b];
    hide WellFormedItem;
    assert forall i :: 0 <= i < |items| ==> |items[i].out| == 1 && WellFormedItem(items[i]);
  }

  function ForwardedUnion(f: string, g: string): Item {
    Renamed(SetOp(UnionAll, [10], [CallBranch(f, 1, 2), CallBranch(g, 3, 4)]), 10, 11)
  }

  lemma ForwardedUnionRefs(f: string, g: string)
    ensures CollectRefs(ForwardedUnion(f, g).scan) == [[1], [3]] && PositionsAgree([[1], [3]])
  {
    TwoReferences(CallBranch(f, 1, 2), CallBranch(g, 3, 4));
  }

  lemma ForwardedUnionWellFormed(f: string, g: string)
    ensures WellFormedTerm(ForwardedUnion(f, g))
  {
    var first, second := CallBranch(f, 1, 2), CallBranch(g, 3, 4);
    assert |first.out| == |second.out| == 1;
    hide WellFormed, WellFormedItem, CallBranch, PositionsAgree, CollectRefs;
    CallBranchWellFormed(f, 1, 2);
    CallBranchWellFormed(g, 3, 4);
    PairWellFormed(first, second, 10);
    RenamedWellFormed(SetOp(UnionAll, [10], [first, second]), 10, 11);
    ForwardedUnionRefs(f, g);
  }

  lemma ForwardedUnionBranches(f: string, g: string, subst: map<nat, Expr<Target>>, distinct: bool)
    requires subst == BuildRefSubst([[1], [3]])
    ensures LowerItems([CallBranch(f, 1, 2), CallBranch(g, 3, 4)], subst, distinct)
      == Some(Plan([], [CallSelect(f), CallSelect(g)]))
  {
    TwoColumns(subst);
    hide BuildRefSubst, FlatBranch, LowerItems, CallBranch, CallSelect;
    CallBranchFlat(f, 1, 2, subst);
    CallBranchFlat(g, 3, 4, subst);
    TwoBranches(CallBranch(f, 1, 2), CallBranch(g, 3, 4), CallSelect(f), CallSelect(g), subst, distinct);
  }

  lemma ForwardedUnionFound(f: string, g: string)
    ensures PassThrough(ForwardedUnion(f, g).scan, ForwardedUnion(f, g).out)
      == Some(SetOp(UnionAll, [10], [CallBranch(f, 1, 2), CallBranch(g, 3, 4)]))
  {
    hide PassThrough;
    ForwardOne(SetOp(UnionAll, [10], [CallBranch(f, 1, 2), CallBranch(g, 3, 4)]), 10, 11);
  }

  /** SELECT x FROM (SELECT f(n) FROM t UNION ALL SELECT g(n) FROM t): two recursive SELECTs, in this order. */
  lemma ForwardedUnionExample(f: string, g: string, distinct: bool)
    ensures WellFormedTerm(ForwardedUnion(f, g))
    ensures LowerTerm(ForwardedUnion(f, g), 1, distinct) == Some(Plan([], [CallSelect(f), CallSelect(g)]))
  {
    ForwardedUnionRefs(f, g);
    ForwardedUnionWellFormed(f, g);
    ForwardedUnionFound(f, g);
    ForwardedUnionBranches(f, g, BuildRefSubst([[1], [3]]), distinct);
    hide ForwardedUnion, WellFormedTerm, FlatBranch, LowerItems, BuildRefSubst, PassThrough, CallBranch, CallSelect;
    hide CollectRefs, PositionsAgree;
  }

  lemma TwoColumns(subst: map<nat, Expr<Target>>)
    requires subst == BuildRefSubst([[1], [3]])
    ensures 1 in subst && subst[1] == Ref(CteColumn(0)) && 3 in subst && subst[3] == Ref(CteColumn(0))
  {
    var refs: seq<seq<nat>> := [[1], [3]];
    assert PositionsAgree(refs);
    hide BuildRefSubst;
    BuildRefSubstAt(refs, 0, 0);
    BuildRefSubstAt(refs, 1, 0);
  }
}

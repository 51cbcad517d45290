/**
 The recursive term of a recursive CTE as a resolved scan, its evaluation stage by stage, and
 its lowering to SELECTs whose FROM clause is the CTE itself.

 Columns are identified by unique ids. Scalar functions are uninterpreted and total.
 */
module RecursivePipeline {
  import opened Sequences

  datatype Value = Null | Bool(b: bool) | Int(n: int) | Text(s: string)

  type Row = seq<Value>

  /** The visible columns of one row of a scan, by column id. */
  type Env = map<nat, Value>

  type Interp = (string, seq<Value>) -> Value

  /** An expression over references of type R: column ids before the lowering, CTE columns after. */
  datatype Expr<R> =
    | Ref(ref: R)
    | Lit(v: Value)
    | Call(name: string, volatile: bool, args: seq<Expr<R>>)

  datatype Target = CteColumn(pos: nat) | Unbound(id: nat)

  datatype SetOpKind = UnionAll | UnionDistinct | Intersect | Except

  datatype Scan =
    | RecursiveRef(cols: seq<nat>)
    | Filter(input: Scan, cond: Expr<nat>)
    | Project(input: Scan, cols: seq<nat>, computed: seq<(nat, Expr<nat>)>)
    | SetOp(op: SetOpKind, cols: seq<nat>, items: seq<Item>)
    | Join(left: Scan, right: Scan)
    | Rows(cols: seq<nat>, rows: seq<Row>)

  /** One input of a set operation: a scan and the columns it contributes, by position. */
  datatype Item = Item(scan: Scan, out: seq<nat>)

  // ----- evaluation -----

  function Eval<R>(e: Expr<R>, lookup: R -> Value, fn: Interp): Value {
    match e
    case Ref(r) => lookup(r)
    case Lit(v) => v
    case Call(name, _, args) =>
      fn(name, seq(|args|, i requires 0 <= i < |args| => Eval(args[i], lookup, fn)))
  }

  datatype Truth = True | False | Unknown

  function Truthy(v: Value): Truth {
    match v
    case Null => Unknown
    case Bool(b) => if b then True else False
    case Int(n) => if n != 0 then True else False
    case Text(_) => False
  }

  function And(a: Truth, b: Truth): Truth {
    if a == False || b == False then False else if a == True && b == True then True else Unknown
  }

  function At(row: Row, i: nat): Value {
    if i < |row| then row[i] else Null
  }

  function Bind(cols: seq<nat>, row: Row): Env {
    if cols == [] then map[]
    else
      var n := |cols| - 1;
      Bind(cols[..n], row)[cols[n] := At(row, n)]
  }

  function Get(env: Env, id: nat): Value {
    if id in env then env[id] else Null
  }

  function EnvLookup(env: Env): nat -> Value {
    (id: nat) => Get(env, id)
  }

  function Compute(env: Env, computed: seq<(nat, Expr<nat>)>, fn: Interp): Env {
    if computed == [] then map[]
    else
      var n := |computed| - 1;
      Compute(env, computed[..n], fn)[computed[n].0 := Eval(computed[n].1, EnvLookup(env), fn)]
  }

  /** The computed columns next to the input's, cut down to the projection's column list. */
  function ProjectEnv(env: Env, cols: seq<nat>, computed: seq<(nat, Expr<nat>)>, fn: Interp): Env {
    var all := env + Compute(env, computed, fn);
    map id | id in cols && id in all :: all[id]
  }

  function FilterStep(cond: Expr<nat>, fn: Interp): Env -> seq<Env> {
    env => if Truthy(Eval(cond, EnvLookup(env), fn)) == True then [env] else []
  }

  function ProjectStep(cols: seq<nat>, computed: seq<(nat, Expr<nat>)>, fn: Interp): Env -> seq<Env> {
    env => [ProjectEnv(env, cols, computed, fn)]
  }

  function BindStep(cols: seq<nat>): Row -> seq<Env> {
    row => [Bind(cols, row)]
  }

  function OutRow(env: Env, out: seq<nat>): Row {
    seq(|out|, i requires 0 <= i < |out| => Get(env, out[i]))
  }

  function OutStep(out: seq<nat>): Env -> seq<Row> {
    env => [OutRow(env, out)]
  }

  function JoinStep(right: seq<Env>): Env -> seq<Env> {
    env => seq(|right|, i requires 0 <= i < |right| => env + right[i])
  }

  function Dedup(rows: seq<Row>): (r: seq<Row>)
    ensures forall x :: x in r <==> x in rows
  {
    if rows == [] then []
    else
      var n := |rows| - 1;
      var r := Dedup(rows[..n]);
      assert rows == rows[..n] + [rows[n]];
      if rows[n] in r then r else r + [rows[n]]
  }

  /** The rows of a scan when the recursive reference reads `cte`. */
  function EvalScan(s: Scan, cte: seq<Row>, fn: Interp): seq<Env>
    decreases s
  {
    match s
    case RecursiveRef(cols) => FlatMap(BindStep(cols), cte)
    case Filter(input, cond) => FlatMap(FilterStep(cond, fn), EvalScan(input, cte, fn))
    case Project(input, cols, computed) => FlatMap(ProjectStep(cols, computed, fn), EvalScan(input, cte, fn))
    case SetOp(op, cols, items) => FlatMap(BindStep(cols), Combine(op, items, cte, fn))
    case Join(left, right) => FlatMap(JoinStep(EvalScan(right, cte, fn)), EvalScan(left, cte, fn))
    case Rows(cols, rows) => FlatMap(BindStep(cols), rows)
  }

  function ItemRows(item: Item, cte: seq<Row>, fn: Interp): seq<Row>
    decreases item
  {
    FlatMap(OutStep(item.out), EvalScan(item.scan, cte, fn))
  }

  function Combine(op: SetOpKind, items: seq<Item>, cte: seq<Row>, fn: Interp): seq<Row>
    decreases items
  {
    if items == [] then []
    else
      var last := ItemRows(items[|items| - 1], cte, fn);
      if |items| == 1 then (if op == UnionDistinct then Dedup(last) else last)
      else
        var init := Combine(op, items[..|items| - 1], cte, fn);
        match op
        case UnionAll => init + last
        case UnionDistinct => Dedup(init + last)
        case Intersect => Dedup(Keep(init, last, true))
        case Except => Dedup(Keep(init, last, false))
  }

  function Keep(rows: seq<Row>, other: seq<Row>, present: bool): seq<Row> {
    if rows == [] then []
    else (if (rows[0] in other) == present then [rows[0]] else []) + Keep(rows[1..], other, present)
  }

  /** INTERSECT keeps the rows the other side has, EXCEPT those it lacks. */
  lemma {:induction false} KeepIs(rows: seq<Row>, other: seq<Row>, present: bool, r: Row)
    ensures r in Keep(rows, other, present) <==> r in rows && (present <==> r in other)
    decreases |rows|
  {
    if rows != [] { KeepIs(rows[1..], other, present, r); }
  }

  /** A filter keeps rows on TRUE and numbers other than 0, and drops them on FALSE, 0, NULL and text. */
  lemma FilterKeeps(s: Scan, v: Value, cte: seq<Row>, fn: Interp)
    ensures EvalScan(Filter(s, Lit(v)), cte, fn) ==
      if v == Bool(true) || (v.Int? && v.n != 0) then EvalScan(s, cte, fn) else []
  {
    KeepsOrDrops(FilterStep(Lit(v), fn), EvalScan(s, cte, fn), v == Bool(true) || (v.Int? && v.n != 0));
  }

  lemma {:induction false} KeepsOrDrops(f: Env -> seq<Env>, envs: seq<Env>, keeps: bool)
    requires forall env :: f(env) == if keeps then [env] else []
    ensures FlatMap(f, envs) == if keeps then envs else []
    decreases |envs|
  {
    if envs != [] { KeepsOrDrops(f, envs[1..], keeps); }
  }

  // ----- flattening a row-wise pipeline -----

  /** One SELECT over the CTE: a list of conditions, and what each column id stands for. */
  datatype FlatSelect = FlatSelect(conds: seq<Expr<Target>>, subst: map<nat, Expr<Target>>)

  datatype Select = Select(cols: seq<Expr<Target>>, conds: seq<Expr<Target>>)

  function Substitute(e: Expr<nat>, subst: map<nat, Expr<Target>>): Expr<Target> {
    match e
    case Ref(id) => if id in subst then subst[id] else Ref(Unbound(id))
    case Lit(v) => Lit(v)
    case Call(name, volatile, args) =>
      Call(name, volatile, seq(|args|, i requires 0 <= i < |args| => Substitute(args[i], subst)))
  }

  predicate Volatile(e: Expr<nat>) {
    e.Call? && (e.volatile || exists i :: 0 <= i < |e.args| && Volatile(e.args[i]))
  }

  /** The part of an expression reached by going from argument to argument. */
  function Part<R>(e: Expr<R>, path: seq<nat>): Option<Expr<R>>
    decreases |path|
  {
    if path == [] then Some(e)
    else if e.Call? && path[0] < |e.args| then Part(e.args[path[0]], path[1..])
    else None
  }

  ghost predicate VolatileAt(e: Expr<nat>, path: seq<nat>) {
    Part(e, path).Some? && Part(e, path).value.Call? && Part(e, path).value.volatile
  }

  /** An expression is volatile exactly when some call in it, at any depth, is. */
  lemma {:induction false} VolatileIff(e: Expr<nat>)
    ensures Volatile(e) <==> exists path :: VolatileAt(e, path)
  {
    assert Part(e, []) == Some(e);
    if e.Call? {
      if e.volatile { assert VolatileAt(e, []); }
      forall i | 0 <= i < |e.args| ensures Volatile(e.args[i]) <==> exists path :: VolatileAt(e.args[i], path) {
        VolatileIff(e.args[i]);
      }
      if i :| 0 <= i < |e.args| && Volatile(e.args[i]) {
        var path :| VolatileAt(e.args[i], path);
        assert ([i] + path)[1..] == path && VolatileAt(e, [i] + path);
      }
      if path :| VolatileAt(e, path) && path != [] { assert VolatileAt(e.args[path[0]], path[1..]); }
    }
    if path :| VolatileAt(e, path) { assert path != [] ==> e.Call?; }
  }

  function SubstComputed(computed: seq<(nat, Expr<nat>)>, subst: map<nat, Expr<Target>>): map<nat, Expr<Target>> {
    if computed == [] then map[]
    else
      var n := |computed| - 1;
      SubstComputed(computed[..n], subst)[computed[n].0 := Substitute(computed[n].1, subst)]
  }

  /** Collapses projections and filters over the recursive reference; None for any other shape. */
  function Flatten(s: Scan, refSubst: map<nat, Expr<Target>>, top: bool): Option<FlatSelect> {
    match s
    case RecursiveRef(_) => Some(FlatSelect([], refSubst))
    case Filter(input, cond) =>
      (match Flatten(input, refSubst, false)
       case None => None
       case Some(fs) => Some(fs.(conds := fs.conds + [Substitute(cond, fs.subst)])))
    case Project(input, _, computed) =>
      (match Flatten(input, refSubst, false)
       case None => None
       case Some(fs) =>
         if !top && exists i :: 0 <= i < |computed| && Volatile(computed[i].1) then None
         else Some(fs.(subst := fs.subst + SubstComputed(computed, fs.subst))))
    case SetOp(_, _, _) => None
    case Join(_, _) => None
    case Rows(_, _) => None
  }

  function FlatBranch(item: Item, refSubst: map<nat, Expr<Target>>): Option<Select> {
    match Flatten(item.scan, refSubst, true)
    case None => None
    case Some(fs) =>
      if forall i :: 0 <= i < |item.out| ==> item.out[i] in fs.subst then
        Some(Select(seq(|item.out|, i requires 0 <= i < |item.out| => fs.subst[item.out[i]]), fs.conds))
      else None
  }

  function RowLookup(row: Row): Target -> Value {
    (t: Target) => if t.CteColumn? then At(row, t.pos) else Null
  }

  /** The WHERE clause: the conditions joined by three-valued AND. */
  function Conjunction(conds: seq<Expr<Target>>, row: Row, fn: Interp): Truth {
    if conds == [] then True
    else
      var n := |conds| - 1;
      And(Conjunction(conds[..n], row, fn), Truthy(Eval(conds[n], RowLookup(row), fn)))
  }

  function SelectStep(sel: Select, fn: Interp): Row -> seq<Row> {
    row =>
      if Conjunction(sel.conds, row, fn) == True then
        [seq(|sel.cols|, i requires 0 <= i < |sel.cols| => Eval(sel.cols[i], RowLookup(row), fn))]
      else []
  }

  // ----- well-formed resolved scans -----

  function Refs(e: Expr<nat>): set<nat> {
    match e
    case Ref(id) => {id}
    case Lit(_) => {}
    case Call(_, _, args) => set i, id | 0 <= i < |args| && id in Refs(args[i]) :: id
  }

  /** The columns a scan makes visible. */
  function Columns(s: Scan): set<nat> {
    match s
    case RecursiveRef(cols) => Elems(cols)
    case Filter(input, _) => Columns(input)
    case Project(_, cols, _) => Elems(cols)
    case SetOp(_, cols, _) => Elems(cols)
    case Join(left, right) => Columns(left) + Columns(right)
    case Rows(cols, _) => Elems(cols)
  }

  predicate Distinct(ids: seq<nat>) {
    forall i, j :: 0 <= i < j < |ids| ==> ids[i] != ids[j]
  }

  function Targets(computed: seq<(nat, Expr<nat>)>): seq<nat> {
    seq(|computed|, i requires 0 <= i < |computed| => computed[i].0)
  }

  /**
   What the resolver guarantees: expressions read columns of their input, computed columns get
   new ids, column lists name existing columns once, and set operation inputs line up.
   */
  predicate WellFormed(s: Scan) {
    match s
    case RecursiveRef(cols) => Distinct(cols)
    case Filter(input, cond) => WellFormed(input) && Refs(cond) <= Columns(input)
    case Project(input, cols, computed) =>
      && WellFormed(input)
      && Distinct(Targets(computed))
      && Elems(cols) <= Columns(input) + Elems(Targets(computed))
      && forall i :: 0 <= i < |computed| ==> computed[i].0 !in Columns(input) && Refs(computed[i].1) <= Columns(input)
    case SetOp(_, cols, items) =>
      && Distinct(cols) && items != []
      && forall i :: 0 <= i < |items| ==> |items[i].out| == |cols| && WellFormedItem(items[i])
    case Join(left, right) => WellFormed(left) && WellFormed(right)
    case Rows(cols, _) => Distinct(cols)
  }

  predicate WellFormedItem(item: Item) {
    WellFormed(item.scan) && Elems(item.out) <= Columns(item.scan)
  }

  // ----- the flattened SELECT computes the pipeline -----

  lemma {:induction false} EvalSubstitute(e: Expr<nat>, subst: map<nat, Expr<Target>>, src: nat -> Value,
      tgt: Target -> Value, fn: Interp)
    requires forall id :: id in Refs(e) ==> id in subst && Eval(subst[id], tgt, fn) == src(id)
    ensures Eval(Substitute(e, subst), tgt, fn) == Eval(e, src, fn)
  {
    if e.Call? {
      var args := Substitute(e, subst).args;
      forall i | 0 <= i < |e.args|
        ensures Eval(args[i], tgt, fn) == Eval(e.args[i], src, fn)
      {
        assert forall id :: id in Refs(e.args[i]) ==> id in Refs(e);
        EvalSubstitute(e.args[i], subst, src, tgt, fn);
      }
      assert seq(|args|, i requires 0 <= i < |args| => Eval(args[i], tgt, fn))
          == seq(|e.args|, i requires 0 <= i < |e.args| => Eval(e.args[i], src, fn));
    }
  }

  /** Every visible column of `env` is the value of the expression that replaces it. */
  ghost predicate Represents(subst: map<nat, Expr<Target>>, row: Row, env: Env, fn: Interp) {
    forall id :: id in env ==> id in subst && Eval(subst[id], RowLookup(row), fn) == env[id]
  }

  /** `refSubst` maps the i-th column of every recursive reference to the i-th CTE column. */
  predicate RefBound(s: Scan, refSubst: map<nat, Expr<Target>>) {
    match s
    case RecursiveRef(cols) =>
      forall i :: 0 <= i < |cols| ==> cols[i] in refSubst && refSubst[cols[i]] == Ref(CteColumn(i))
    case Filter(input, _) => RefBound(input, refSubst)
    case Project(input, _, _) => RefBound(input, refSubst)
    case SetOp(_, _, items) => forall i :: 0 <= i < |items| ==> RefBound(items[i].scan, refSubst)
    case Join(left, right) => RefBound(left, refSubst) && RefBound(right, refSubst)
    case Rows(_, _) => true
  }

  lemma {:induction false} BindColumns(cols: seq<nat>, row: Row)
    ensures Bind(cols, row).Keys == Elems(cols)
    decreases |cols|
  {
    if cols != [] {
      var n := |cols| - 1;
      BindColumns(cols[..n], row);
      assert cols == cols[..n] + [cols[n]];
    }
  }

  lemma {:induction false} BindAt(cols: seq<nat>, row: Row, i: nat)
    requires Distinct(cols) && i < |cols|
    ensures Get(Bind(cols, row), cols[i]) == At(row, i)
    decreases |cols|
  {
    var n := |cols| - 1;
    if i < n { BindAt(cols[..n], row, i); }
  }

  lemma RefRepresents(cols: seq<nat>, refSubst: map<nat, Expr<Target>>, row: Row, fn: Interp)
    requires Distinct(cols) && RefBound(RecursiveRef(cols), refSubst)
    ensures Represents(refSubst, row, Bind(cols, row), fn)
  {
    BindColumns(cols, row);
    forall id | id in Bind(cols, row)
      ensures id in refSubst && Eval(refSubst[id], RowLookup(row), fn) == Bind(cols, row)[id]
    {
      assert id in Elems(cols);
      var i :| 0 <= i < |cols| && cols[i] == id;
      BindAt(cols, row, i);
    }
  }

  lemma {:induction false} ComputeRepresents(computed: seq<(nat, Expr<nat>)>, subst: map<nat, Expr<Target>>,
      row: Row, env: Env, fn: Interp)
    requires Represents(subst, row, env, fn)
    requires forall i :: 0 <= i < |computed| ==> Refs(computed[i].1) <= env.Keys
    ensures Compute(env, computed, fn).Keys == SubstComputed(computed, subst).Keys == Elems(Targets(computed))
    ensures Represents(SubstComputed(computed, subst), row, Compute(env, computed, fn), fn)
  {
    if computed != [] {
      var n := |computed| - 1;
      ComputeRepresents(computed[..n], subst, row, env, fn);
      EvalSubstitute(computed[n].1, subst, EnvLookup(env), RowLookup(row), fn);
      assert Targets(computed) == Targets(computed[..n]) + [computed[n].0];
      assert Elems(Targets(computed)) == Elems(Targets(computed[..n])) + {computed[n].0};
    }
  }

  lemma ProjectRepresents(s: Scan, subst: map<nat, Expr<Target>>, row: Row, env: Env, fn: Interp)
    requires s.Project? && WellFormed(s) && env.Keys == Columns(s.input)
    requires Represents(subst, row, env, fn)
    ensures var env' := ProjectEnv(env, s.cols, s.computed, fn);
            && env'.Keys == Columns(s)
            && Represents(subst + SubstComputed(s.computed, subst), row, env', fn)
  {
    ComputeRepresents(s.computed, subst, row, env, fn);
    var all := env + Compute(env, s.computed, fn);
    assert all.Keys == Columns(s.input) + Elems(Targets(s.computed));
  }

  lemma FlatMapOne<A, B>(f: A -> seq<B>, x: A)
    ensures FlatMap(f, [x]) == f(x)
  {
    FlatMapSnoc(f, [], x);
    assert [] + [x] == [x];
    assert FlatMap(f, []) + f(x) == f(x);
  }

  /** What a flattened pipeline yields for one CTE row: at most one row, which `subst` describes. */
  ghost predicate OneRow(s: Scan, fs: FlatSelect, row: Row, fn: Interp) {
    var envs := EvalScan(s, [row], fn);
    if Conjunction(fs.conds, row, fn) == True then
      |envs| == 1 && envs[0].Keys == Columns(s) && Represents(fs.subst, row, envs[0], fn)
    else envs == []
  }

  lemma {:induction false} FlattenOneRow(s: Scan, refSubst: map<nat, Expr<Target>>, top: bool, row: Row, fn: Interp)
    requires WellFormed(s) && RefBound(s, refSubst) && Flatten(s, refSubst, top).Some?
    ensures OneRow(s, Flatten(s, refSubst, top).value, row, fn)
    decreases s
  {
    match s
    case RecursiveRef(cols) =>
      FlatMapOne(BindStep(cols), row);
      BindColumns(cols, row);
      RefRepresents(cols, refSubst, row, fn);
    case Filter(input, cond) =>
      FlattenOneRow(input, refSubst, false, row, fn);
      FilterOneRow(input, cond, Flatten(input, refSubst, false).value, row, fn);
    case Project(input, cols, computed) =>
      FlattenOneRow(input, refSubst, false, row, fn);
      ProjectOneRow(s, Flatten(input, refSubst, false).value, row, fn);
  }

  lemma FilterOneRow(input: Scan, cond: Expr<nat>, fs: FlatSelect, row: Row, fn: Interp)
    requires Refs(cond) <= Columns(input) && OneRow(input, fs, row, fn)
    ensures OneRow(Filter(input, cond), fs.(conds := fs.conds + [Substitute(cond, fs.subst)]), row, fn)
  {
    var envs := EvalScan(input, [row], fn);
    assert EvalScan(Filter(input, cond), [row], fn) == FlatMap(FilterStep(cond, fn), envs);
    hide EvalScan, Conjunction, Represents, FlatMap, Eval, Substitute, Refs, RowLookup, Truthy;
    ConjunctionSnoc(fs.conds, Substitute(cond, fs.subst), row, fn);
    if envs == [] {
      NothingMapped(FilterStep(cond, fn));
    } else {
      assert envs == [envs[0]];
      FlatMapOne(FilterStep(cond, fn), envs[0]);
      CondSubstitute(cond, fs.subst, row, envs[0], fn);
    }
  }

  lemma ConjunctionSnoc(conds: seq<Expr<Target>>, cond: Expr<Target>, row: Row, fn: Interp)
    ensures Conjunction(conds + [cond], row, fn)
      == And(Conjunction(conds, row, fn), Truthy(Eval(cond, RowLookup(row), fn)))
  {
    hide Eval, Truthy;
    assert (conds + [cond])[..|conds|] == conds;
  }

  lemma CondSubstitute(cond: Expr<nat>, subst: map<nat, Expr<Target>>, row: Row, env: Env, fn: Interp)
    requires Refs(cond) <= env.Keys && Represents(subst, row, env, fn)
    ensures Eval(Substitute(cond, subst), RowLookup(row), fn) == Eval(cond, EnvLookup(env), fn)
  {
    hide Eval, Substitute, Refs, RowLookup;
    EvalSubstitute(cond, subst, EnvLookup(env), RowLookup(row), fn);
  }

  lemma ProjectOneRow(s: Scan, fs: FlatSelect, row: Row, fn: Interp)
    requires s.Project? && WellFormed(s) && OneRow(s.input, fs, row, fn)
    ensures OneRow(s, fs.(subst := fs.subst + SubstComputed(s.computed, fs.subst)), row, fn)
  {
    var envs := EvalScan(s.input, [row], fn);
    if envs != [] {
      assert envs == [envs[0]];
      FlatMapOne(ProjectStep(s.cols, s.computed, fn), envs[0]);
      ProjectRepresents(s, fs.subst, row, envs[0], fn);
    }
  }

  /** Pipelines are row-wise: they map the concatenation of two tables piecewise. */
  lemma {:induction false} FlattenConcat(s: Scan, refSubst: map<nat, Expr<Target>>, top: bool, a: seq<Row>,
      b: seq<Row>, fn: Interp)
    requires Flatten(s, refSubst, top).Some?
    ensures EvalScan(s, a + b, fn) == EvalScan(s, a, fn) + EvalScan(s, b, fn)
    decreases s
  {
    match s
    case RecursiveRef(cols) => FlatMapConcat(BindStep(cols), a, b);
    case Filter(input, cond) =>
      FlattenConcat(input, refSubst, false, a, b, fn);
      FlatMapConcat(FilterStep(cond, fn), EvalScan(input, a, fn), EvalScan(input, b, fn));
    case Project(input, cols, computed) =>
      FlattenConcat(input, refSubst, false, a, b, fn);
      FlatMapConcat(ProjectStep(cols, computed, fn), EvalScan(input, a, fn), EvalScan(input, b, fn));
  }

  lemma {:induction false} FlattenEmpty(s: Scan, refSubst: map<nat, Expr<Target>>, top: bool, fn: Interp)
    requires Flatten(s, refSubst, top).Some?
    ensures EvalScan(s, [], fn) == []
    decreases s
  {
    match s
    case RecursiveRef(_) =>
    case Filter(input, _) => FlattenEmpty(input, refSubst, false, fn);
    case Project(input, _, _) => FlattenEmpty(input, refSubst, false, fn);
  }

  lemma FlatBranchOneRow(item: Item, refSubst: map<nat, Expr<Target>>, row: Row, fn: Interp)
    requires WellFormedItem(item) && RefBound(item.scan, refSubst) && FlatBranch(item, refSubst).Some?
    ensures ItemRows(item, [row], fn) == SelectStep(FlatBranch(item, refSubst).value, fn)(row)
  {
    var fs, sel := Flatten(item.scan, refSubst, true).value, FlatBranch(item, refSubst).value;
    FlattenOneRow(item.scan, refSubst, true, row, fn);
    var envs := EvalScan(item.scan, [row], fn);
    if Conjunction(fs.conds, row, fn) == True {
      assert envs == [envs[0]];
      FlatMapOne(OutStep(item.out), envs[0]);
      forall i | 0 <= i < |item.out|
        ensures Get(envs[0], item.out[i]) == Eval(sel.cols[i], RowLookup(row), fn)
      {
        assert item.out[i] in Elems(item.out);
      }
      assert OutRow(envs[0], item.out)
          == seq(|sel.cols|, i requires 0 <= i < |sel.cols| => Eval(sel.cols[i], RowLookup(row), fn));
    }
  }

  /**
   The single SELECT built by column-id substitution, with the conditions joined by AND, yields
   the rows of the pipeline evaluated stage by stage, in the same order.
   */
  lemma {:induction false} FlatBranchSound(item: Item, refSubst: map<nat, Expr<Target>>, cte: seq<Row>, fn: Interp)
    requires WellFormedItem(item) && RefBound(item.scan, refSubst) && FlatBranch(item, refSubst).Some?
    ensures ItemRows(item, cte, fn) == FlatMap(SelectStep(FlatBranch(item, refSubst).value, fn), cte)
    decreases |cte|
  {
    if cte == [] {
      FlattenEmpty(item.scan, refSubst, true, fn);
    } else {
      assert cte == [cte[0]] + cte[1..];
      FlatBranchSound(item, refSubst, cte[1..], fn);
      FlatBranchOneRow(item, refSubst, cte[0], fn);
      FlattenConcat(item.scan, refSubst, true, [cte[0]], cte[1..], fn);
      FlatMapConcat(OutStep(item.out), EvalScan(item.scan, [cte[0]], fn), EvalScan(item.scan, cte[1..], fn));
    }
  }

  // ----- which terms are flattened -----

  /** Projections and filters over the self-reference, with volatile expressions only on top. */
  predicate RowWise(s: Scan, top: bool) {
    match s
    case RecursiveRef(_) => true
    case Filter(input, _) => RowWise(input, false)
    case Project(input, _, computed) =>
      RowWise(input, false) && (top || forall i :: 0 <= i < |computed| ==> !Volatile(computed[i].1))
    case SetOp(_, _, _) => false
    case Join(_, _) => false
    case Rows(_, _) => false
  }

  lemma {:induction false} SubstComputedKeys(computed: seq<(nat, Expr<nat>)>, subst: map<nat, Expr<Target>>)
    ensures SubstComputed(computed, subst).Keys == Elems(Targets(computed))
    decreases |computed|
  {
    if computed != [] {
      var n := |computed| - 1;
      SubstComputedKeys(computed[..n], subst);
      assert Targets(computed) == Targets(computed[..n]) + [computed[n].0];
    }
  }

  /** Exactly the row-wise pipelines are flattened, and each visible column gets an expression. */
  lemma {:induction false} FlattenAccepts(s: Scan, refSubst: map<nat, Expr<Target>>, top: bool)
    requires WellFormed(s) && RefBound(s, refSubst)
    ensures Flatten(s, refSubst, top).Some? <==> RowWise(s, top)
    ensures RowWise(s, top) ==> Columns(s) <= Flatten(s, refSubst, top).value.subst.Keys
    decreases s
  {
    match s
    case RecursiveRef(_) =>
    case Filter(input, _) => FlattenAccepts(input, refSubst, false);
    case Project(input, _, computed) =>
      FlattenAccepts(input, refSubst, false);
      if RowWise(s, top) {
        SubstComputedKeys(computed, Flatten(input, refSubst, false).value.subst);
      }
    case SetOp(_, _, _) =>
    case Join(_, _) =>
    case Rows(_, _) =>
  }

  lemma FlatBranchAccepts(item: Item, refSubst: map<nat, Expr<Target>>)
    requires WellFormedItem(item) && RefBound(item.scan, refSubst)
    ensures FlatBranch(item, refSubst).Some? <==> RowWise(item.scan, true)
  {
    FlattenAccepts(item.scan, refSubst, true);
    assert forall i :: 0 <= i < |item.out| ==> item.out[i] in Elems(item.out);
  }
}

/**
 IFERROR, ISERROR and NULLIFERROR on an engine without try/catch.

 An expression is lowered in one of two modes. In raising mode a failing function aborts the
 statement. In safe mode (below an error handler) it yields a marker that carries the error and
 travels through function calls as an ordinary value.
 */
module ErrorHandling {

  datatype Value = Null | Bool(b: bool) | Int(n: int) | Text(s: string)

  datatype Result = Ok(v: Value) | Err(msg: string)

  /**
   Scalar functions: uninterpreted, and they may fail on their arguments. Those registered as normal functions
   have a deferred variant; user-defined functions and the current-time functions do not.
   */
  datatype Functions = Functions(call: (string, seq<Value>) -> Result, deferrable: string -> bool)

  /** CASE lists its arguments flat: condition, value, condition, value, ..., and maybe a default. */
  datatype Expr =
    | Lit(v: Value)
    | Column(i: nat)
    | Call(f: string, args: seq<Expr>)
    | Error(message: Expr)
    | IfError(try: Expr, catch: Expr)
    | IsError(try: Expr)
    | NullIfError(try: Expr)
    | IfNull(x: Expr, default: Expr)
    | Case(args: seq<Expr>)

  // ----- GoogleSQL: an error aborts the evaluation of everything but a handler -----

  /** The text ERROR raises. A missing message is reported as "ERROR". */
  function MessageOf(v: Value): string {
    match v
    case Text(s) => s
    case _ => "ERROR"
  }

  predicate Holds(v: Value) {
    v == Bool(true) || (v.Int? && v.n != 0)
  }

  /** Strict application: the leftmost failing argument fails the call. */
  function Apply(f: string, args: seq<Result>, done: seq<Value>, fn: Functions): Result
    decreases |args|
  {
    if args == [] then fn.call(f, done)
    else
      match args[0]
      case Err(m) => Err(m)
      case Ok(v) => Apply(f, args[1..], done + [v], fn)
  }

  /** The branch a searched CASE takes; later conditions and other branches do not matter. */
  function Pick(args: seq<Result>): Result
    decreases |args|
  {
    if args == [] then Ok(Null)
    else if |args| == 1 then args[0]
    else
      match args[0]
      case Err(m) => Err(m)
      case Ok(v) => if Holds(v) then args[1] else Pick(args[2..])
  }

  function Eval(e: Expr, row: nat -> Value, fn: Functions): Result {
    match e
    case Lit(v) => Ok(v)
    case Column(i) => Ok(row(i))
    case Call(f, args) => Apply(f, EvalAll(args, row, fn), [], fn)
    case Error(m) =>
      (match Eval(m, row, fn)
       case Err(k) => Err(k)
       case Ok(v) => Err(MessageOf(v)))
    case IfError(x, c) =>
      (match Eval(x, row, fn)
       case Err(_) => Eval(c, row, fn)
       case Ok(v) => Ok(v))
    case IsError(x) => Ok(Bool(Eval(x, row, fn).Err?))
    case NullIfError(x) =>
      (match Eval(x, row, fn)
       case Err(_) => Ok(Null)
       case Ok(v) => Ok(v))
    case IfNull(x, d) =>
      (match Eval(x, row, fn)
       case Err(k) => Err(k)
       case Ok(v) => if v == Null then Eval(d, row, fn) else Ok(v))
    case Case(args) => Pick(EvalAll(args, row, fn))
  }

  function EvalAll(args: seq<Expr>, row: nat -> Value, fn: Functions): (r: seq<Result>)
    ensures |r| == |args|
  {
    if args == [] then [] else [Eval(args[0], row, fn)] + EvalAll(args[1..], row, fn)
  }

  // ----- SQLite: no handlers, markers are values -----

  datatype Datum = Plain(v: Value) | Marker(msg: string)

  datatype Outcome = Val(d: Datum) | Abort(msg: string)

  datatype Variant = Raising | Deferred

  datatype Sql =
    | SLit(v: Value)
    | SColumn(i: nat)
    | SCall(variant: Variant, f: string, args: seq<Sql>)
    | SError(message: Sql)
    | SMakeDeferred(message: Sql)
    | SIsDeferred(x: Sql)
    | SDeferredToNull(x: Sql)
    | SIsNull(x: Sql)
    | SCase(args: seq<Sql>)

  /** A raising function refuses a marker; a deferred one returns the first marker among its arguments. */
  function SApply(variant: Variant, f: string, args: seq<Outcome>, done: seq<Value>, fn: Functions): Outcome
    decreases |args|
  {
    if args == [] then
      match fn.call(f, done)
      case Ok(v) => Val(Plain(v))
      case Err(m) => if variant == Raising then Abort(m) else Val(Marker(m))
    else
      match args[0]
      case Abort(m) => Abort(m)
      case Val(Plain(v)) => SApply(variant, f, args[1..], done + [v], fn)
      case Val(Marker(m)) =>
        match FirstAbort(args[1..])
        case Val(_) => if variant == Raising then Abort(m) else Val(Marker(m))
        case Abort(k) => Abort(k)
  }

  /** SQLite evaluates every argument before the call. */
  function FirstAbort(args: seq<Outcome>): Outcome
    decreases |args|
  {
    if args == [] then Val(Plain(Null)) else if args[0].Abort? then args[0] else FirstAbort(args[1..])
  }

  /** A marker is text, and text is not true: as a CASE condition it falls through. */
  function SPick(args: seq<Outcome>): Outcome
    decreases |args|
  {
    if args == [] then Val(Plain(Null))
    else if |args| == 1 then args[0]
    else
      match args[0]
      case Abort(m) => Abort(m)
      case Val(d) => if d.Plain? && Holds(d.v) then args[1] else SPick(args[2..])
  }

  function SEval(s: Sql, row: nat -> Value, fn: Functions): Outcome {
    match s
    case SLit(v) => Val(Plain(v))
    case SColumn(i) => Val(Plain(row(i)))
    case SCall(variant, f, args) => SApply(variant, f, SEvalAll(args, row, fn), [], fn)
    case SError(m) =>
      (match SEval(m, row, fn)
       case Abort(k) => Abort(k)
       case Val(Marker(k)) => Abort(k)
       case Val(Plain(v)) => if v == Null then Val(Plain(Null)) else Abort(MessageOf(v)))
    case SMakeDeferred(m) =>
      (match SEval(m, row, fn)
       case Abort(k) => Abort(k)
       case Val(Marker(_)) => Val(Marker("ERROR"))
       case Val(Plain(v)) => Val(Marker(MessageOf(v))))
    case SIsDeferred(x) =>
      (match SEval(x, row, fn)
       case Abort(k) => Abort(k)
       case Val(d) => Val(Plain(Bool(d.Marker?))))
    case SDeferredToNull(x) =>
      (match SEval(x, row, fn)
       case Abort(k) => Abort(k)
       case Val(d) => Val(if d.Marker? then Plain(Null) else d))
    case SIsNull(x) =>
      (match SEval(x, row, fn)
       case Abort(k) => Abort(k)
       case Val(d) => Val(Plain(Bool(d == Plain(Null)))))
    case SCase(args) => SPick(SEvalAll(args, row, fn))
  }

  function SEvalAll(args: seq<Sql>, row: nat -> Value, fn: Functions): (r: seq<Outcome>)
    ensures |r| == |args|
  {
    if args == [] then [] else [SEval(args[0], row, fn)] + SEvalAll(args[1..], row, fn)
  }

  // ----- the lowering -----

  /** Below a handler a function without a deferred variant stays on the raising one. */
  function VariantOf(f: string, safe: bool, fn: Functions): Variant {
    if safe && fn.deferrable(f) then Deferred else Raising
  }

  function Lower(e: Expr, safe: bool, fn: Functions): Sql {
    match e
    case Lit(v) => SLit(v)
    case Column(i) => SColumn(i)
    case Call(f, args) => SCall(VariantOf(f, safe, fn), f, LowerAll(args, safe, fn))
    case Error(m) => if safe then SMakeDeferred(Lower(m, safe, fn)) else SError(Lower(m, safe, fn))
    case IfError(x, c) =>
      var tried := Lower(x, true, fn);
      SCase([SIsDeferred(tried), Lower(c, safe, fn), tried])
    case IsError(x) => SIsDeferred(Lower(x, true, fn))
    case NullIfError(x) => SDeferredToNull(Lower(x, true, fn))
    case IfNull(x, d) =>
      var tested := Lower(x, safe, fn);
      SCase([SIsNull(tested), Lower(d, safe, fn), tested])
    case Case(args) => SCase(LowerAll(args, safe, fn))
  }

  function LowerAll(args: seq<Expr>, safe: bool, fn: Functions): (r: seq<Sql>)
    ensures |r| == |args|
  {
    if args == [] then [] else [Lower(args[0], safe, fn)] + LowerAll(args[1..], safe, fn)
  }

  // ----- in safe mode nothing aborts -----

  predicate NoAbort(args: seq<Outcome>) {
    forall i :: 0 <= i < |args| ==> args[i].Val?
  }

  lemma {:induction false} SApplyNoAbort(f: string, args: seq<Outcome>, done: seq<Value>, fn: Functions)
    requires NoAbort(args)
    ensures SApply(Deferred, f, args, done, fn).Val?
    decreases |args|
  {
    if args != [] {
      FirstAbortNone(args[1..]);
      if args[0].d.Plain? { SApplyNoAbort(f, args[1..], done + [args[0].d.v], fn); }
    }
  }

  lemma {:induction false} FirstAbortNone(args: seq<Outcome>)
    requires NoAbort(args)
    ensures FirstAbort(args) == Val(Plain(Null))
    decreases |args|
  {
    if args != [] { FirstAbortNone(args[1..]); }
  }

  lemma {:induction false} SPickNoAbort(args: seq<Outcome>)
    requires NoAbort(args)
    ensures SPick(args).Val?
    decreases |args|
  {
    if |args| > 1 { SPickNoAbort(args[2..]); }
  }

  lemma SEvalAllCons(x: Sql, rest: seq<Sql>, row: nat -> Value, fn: Functions)
    ensures SEvalAll([x] + rest, row, fn) == [SEval(x, row, fn)] + SEvalAll(rest, row, fn)
  {
    assert ([x] + rest)[1..] == rest;
  }

  lemma ThreeWay(c: Sql, a: Sql, b: Sql, row: nat -> Value, fn: Functions)
    ensures SEval(SCase([c, a, b]), row, fn)
         == SPick([SEval(c, row, fn), SEval(a, row, fn), SEval(b, row, fn)])
  {
    var none: seq<Sql> := [];
    assert SEvalAll(none, row, fn) == [];
    assert SEval(SCase([c, a, b]), row, fn) == SPick(SEvalAll([c, a, b], row, fn));
    hide *;
    SEvalAllCons(b, none, row, fn);
    SEvalAllCons(a, [b] + none, row, fn);
    SEvalAllCons(c, [a] + ([b] + none), row, fn);
    assert [c, a, b] == [c] + ([a] + ([b] + none));
    var x, y, z := SEval(c, row, fn), SEval(a, row, fn), SEval(b, row, fn);
    assert [x] + ([y] + ([z] + [])) == [x, y, z];
  }

  lemma PickThree(c: Outcome, a: Outcome, b: Outcome)
    ensures SPick([c, a, b]) ==
      if c.Abort? then Abort(c.msg) else if c.d.Plain? && Holds(c.d.v) then a else b
  {
    assert [c, a, b][2..] == [b];
  }

  /** Every function called has a deferred variant. */
  predicate Deferrable(e: Expr, fn: Functions) {
    match e
    case Lit(_) => true
    case Column(_) => true
    case Call(f, args) => fn.deferrable(f) && AllDeferrable(args, fn)
    case Error(m) => Deferrable(m, fn)
    case IfError(x, c) => Deferrable(x, fn) && Deferrable(c, fn)
    case IsError(x) => Deferrable(x, fn)
    case NullIfError(x) => Deferrable(x, fn)
    case IfNull(x, d) => Deferrable(x, fn) && Deferrable(d, fn)
    case Case(args) => AllDeferrable(args, fn)
  }

  predicate AllDeferrable(args: seq<Expr>, fn: Functions) {
    args == [] || (Deferrable(args[0], fn) && AllDeferrable(args[1..], fn))
  }

  /** The direct parts of an expression. */
  function Parts(e: Expr): seq<Expr> {
    match e
    case Lit(_) | Column(_) => []
    case Call(_, args) => args
    case Error(m) => [m]
    case IfError(x, c) => [x, c]
    case IsError(x) => [x]
    case NullIfError(x) => [x]
    case IfNull(x, d) => [x, d]
    case Case(args) => args
  }

  /** Function f is called somewhere inside e, which the path leads to. */
  predicate CalledAt(e: Expr, path: seq<nat>, f: string)
    decreases |path|
  {
    if path == [] then e.Call? && e.f == f
    else path[0] < |Parts(e)| && CalledAt(Parts(e)[path[0]], path[1..], f)
  }

  lemma {:induction false} AllDeferrableIff(args: seq<Expr>, fn: Functions)
    ensures AllDeferrable(args, fn) <==> forall i :: 0 <= i < |args| ==> Deferrable(args[i], fn)
    decreases |args|
  {
    if args != [] {
      AllDeferrableIff(args[1..], fn);
      assert forall i :: 0 < i < |args| ==> args[1..][i - 1] == args[i];
    }
  }

  lemma DeferrableParts(e: Expr, fn: Functions)
    ensures Deferrable(e, fn) <==>
            && (e.Call? ==> fn.deferrable(e.f))
            && forall i :: 0 <= i < |Parts(e)| ==> Deferrable(Parts(e)[i], fn)
  {
    AllDeferrableIff(Parts(e), fn);
    assert e.IfError? || e.IfNull? ==> Parts(e)[1..][1..] == [] && Parts(e)[1..][0] == Parts(e)[1];
    assert e.Error? || e.IsError? || e.NullIfError? ==> Parts(e)[1..] == [];
  }

  lemma {:induction false} CalledDeferrable(e: Expr, fn: Functions, path: seq<nat>, f: string)
    requires Deferrable(e, fn) && CalledAt(e, path, f)
    ensures fn.deferrable(f)
    decreases |path|
  {
    DeferrableParts(e, fn);
    if path != [] { CalledDeferrable(Parts(e)[path[0]], fn, path[1..], f); }
  }

  lemma {:induction false} NotDeferrable(e: Expr, fn: Functions) returns (path: seq<nat>, f: string)
    requires !Deferrable(e, fn)
    ensures CalledAt(e, path, f) && !fn.deferrable(f)
    decreases e
  {
    DeferrableParts(e, fn);
    if e.Call? && !fn.deferrable(e.f) {
      path, f := [], e.f;
    } else {
      var i :| 0 <= i < |Parts(e)| && !Deferrable(Parts(e)[i], fn);
      var rest;
      rest, f := NotDeferrable(Parts(e)[i], fn);
      path := [i] + rest;
      assert path[1..] == rest;
    }
  }

  /** An expression is deferrable exactly when every function called anywhere inside it has a deferred variant. */
  lemma DeferrableIff(e: Expr, fn: Functions)
    ensures Deferrable(e, fn) <==> forall path, f :: CalledAt(e, path, f) ==> fn.deferrable(f)
  {
    hide *;
    if Deferrable(e, fn) {
      forall path, f | CalledAt(e, path, f) ensures fn.deferrable(f) { CalledDeferrable(e, fn, path, f); }
    } else {
      var path, f := NotDeferrable(e, fn);
      assert CalledAt(e, path, f) && !fn.deferrable(f);
      assert exists p, g :: CalledAt(e, p, g) && !fn.deferrable(g);
    }
  }

  /** Below a handler an expression whose functions all have deferred variants never aborts the statement. */
  lemma {:induction false} SafeNeverAborts(e: Expr, row: nat -> Value, fn: Functions)
    requires Deferrable(e, fn)
    ensures SEval(Lower(e, true, fn), row, fn).Val?
    decreases e
  {
    match e
    case Lit(_) =>
    case Column(_) =>
    case Call(f, args) =>
      SafeAllNeverAbort(args, row, fn);
      SApplyNoAbort(f, SEvalAll(LowerAll(args, true, fn), row, fn), [], fn);
    case Error(m) => SafeNeverAborts(m, row, fn);
    case IfError(x, c) =>
      SafeNeverAborts(x, row, fn);
      SafeNeverAborts(c, row, fn);
      CaseOfThree(SIsDeferred(Lower(x, true, fn)), Lower(c, true, fn), Lower(x, true, fn), row, fn);
    case IsError(x) => SafeNeverAborts(x, row, fn);
    case NullIfError(x) => SafeNeverAborts(x, row, fn);
    case IfNull(x, d) =>
      SafeNeverAborts(x, row, fn);
      SafeNeverAborts(d, row, fn);
      CaseOfThree(SIsNull(Lower(x, true, fn)), Lower(d, true, fn), Lower(x, true, fn), row, fn);
    case Case(args) =>
      SafeAllNeverAbort(args, row, fn);
      SPickNoAbort(SEvalAll(LowerAll(args, true, fn), row, fn));
  }

  lemma CaseOfThree(c: Sql, a: Sql, b: Sql, row: nat -> Value, fn: Functions)
    ensures var test := SEval(c, row, fn);
            SEval(SCase([c, a, b]), row, fn) ==
              if test.Abort? then Abort(test.msg)
              else if test.d.Plain? && Holds(test.d.v) then SEval(a, row, fn)
              else SEval(b, row, fn)
  {
    ThreeWay(c, a, b, row, fn);
    PickThree(SEval(c, row, fn), SEval(a, row, fn), SEval(b, row, fn));
  }

  lemma {:induction false} SafeAllNeverAbort(args: seq<Expr>, row: nat -> Value, fn: Functions)
    requires AllDeferrable(args, fn)
    ensures NoAbort(SEvalAll(LowerAll(args, true, fn), row, fn))
    decreases args
  {
    if args != [] {
      SafeNeverAborts(args[0], row, fn);
      SafeAllNeverAbort(args[1..], row, fn);
      assert LowerAll(args, true, fn)[1..] == LowerAll(args[1..], true, fn);
    }
  }

  // ----- the lowering keeps the meaning -----

  /**
   The lowered outcome stands for the source result: the same value, or an abort (raising) or a
   marker (safe) for an error. With `exact` the error is also the same one.
   */
  ghost predicate Stands(r: Result, o: Outcome, safe: bool, exact: bool) {
    match r
    case Ok(v) => o == Val(Plain(v))
    case Err(m) =>
      if safe then o.Val? && o.d.Marker? && (exact ==> o.d.msg == m)
      else o.Abort? && (exact ==> o.msg == m)
  }

  /**
   Where the lowering is faithful. Among the parts of `e` whose value matters: no CASE condition and no
   function without a deferred variant fails below a handler, ERROR is not raised with a NULL message outside
   of one, and, when the carried message matters, no ERROR below a handler is given a failing message.
   */
  predicate Faithful(e: Expr, safe: bool, exact: bool, row: nat -> Value, fn: Functions) {
    match e
    case Lit(_) => true
    case Column(_) => true
    case Call(f, args) =>
      && FaithfulArgs(args, safe, exact, row, fn)
      && (safe && !fn.deferrable(f) ==> Apply(f, EvalAll(args, row, fn), [], fn).Ok?)
    case Error(m) =>
      && Faithful(m, safe, exact, row, fn)
      && (!safe ==> Eval(m, row, fn) != Ok(Null))
      && (safe && exact ==> Eval(m, row, fn).Ok?)
    case IfError(x, c) =>
      Faithful(x, true, false, row, fn) && (Eval(x, row, fn).Err? ==> Faithful(c, safe, exact, row, fn))
    case IsError(x) => Faithful(x, true, false, row, fn)
    case NullIfError(x) => Faithful(x, true, false, row, fn)
    case IfNull(x, d) =>
      Faithful(x, safe, exact, row, fn) && (Eval(x, row, fn) == Ok(Null) ==> Faithful(d, safe, exact, row, fn))
    case Case(args) => FaithfulCase(args, safe, exact, row, fn)
  }

  predicate FaithfulArgs(args: seq<Expr>, safe: bool, exact: bool, row: nat -> Value, fn: Functions) {
    args == [] ||
    (Faithful(args[0], safe, exact, row, fn) &&
     if Eval(args[0], row, fn).Ok? then FaithfulArgs(args[1..], safe, exact, row, fn)
     else safe ==> AllDeferrable(args[1..], fn))
  }

  predicate FaithfulCase(args: seq<Expr>, safe: bool, exact: bool, row: nat -> Value, fn: Functions)
    decreases args
  {
    if args == [] then true
    else if |args| == 1 then Faithful(args[0], safe, exact, row, fn)
    else
      && Faithful(args[0], safe, exact, row, fn)
      && (safe ==> Eval(args[0], row, fn).Ok?)
      && (Eval(args[0], row, fn).Ok? ==>
            if Holds(Eval(args[0], row, fn).v) then Faithful(args[1], safe, exact, row, fn)
            else FaithfulCase(args[2..], safe, exact, row, fn))
  }

  /** Arguments stand for their results up to the first failure; safe ones never abort after it. */
  ghost predicate ArgsStand(rs: seq<Result>, os: seq<Outcome>, safe: bool, exact: bool)
    decreases |rs|
  {
    |rs| == |os| && (safe ==> NoAbort(os)) &&
    (rs == [] || (Stands(rs[0], os[0], safe, exact) &&
                  (rs[0].Ok? ==> ArgsStand(rs[1..], os[1..], safe, exact))))
  }

  lemma {:induction false} ApplyStands(f: string, rs: seq<Result>, os: seq<Outcome>, done: seq<Value>, safe: bool,
      exact: bool, fn: Functions)
    requires ArgsStand(rs, os, safe, exact) && (safe && !fn.deferrable(f) ==> Apply(f, rs, done, fn).Ok?)
    ensures Stands(Apply(f, rs, done, fn), SApply(VariantOf(f, safe, fn), f, os, done, fn), safe, exact)
    decreases |rs|
  {
    if rs != [] {
      if rs[0].Ok? {
        ApplyStands(f, rs[1..], os[1..], done + [rs[0].v], safe, exact, fn);
      } else if safe {
        FirstAbortNone(os[1..]);
      }
    }
  }

  /** The conditions a CASE reaches and the branch it takes stand for their results. */
  ghost predicate CaseStands(rs: seq<Result>, os: seq<Outcome>, safe: bool, exact: bool)
    decreases |rs|
  {
    |rs| == |os| &&
    if rs == [] then true
    else if |rs| == 1 then Stands(rs[0], os[0], safe, exact)
    else
      && Stands(rs[0], os[0], safe, exact)
      && (safe ==> rs[0].Ok?)
      && (rs[0].Ok? ==>
            if Holds(rs[0].v) then Stands(rs[1], os[1], safe, exact)
            else CaseStands(rs[2..], os[2..], safe, exact))
  }

  lemma {:induction false} PickStands(rs: seq<Result>, os: seq<Outcome>, safe: bool, exact: bool)
    requires CaseStands(rs, os, safe, exact)
    ensures Stands(Pick(rs), SPick(os), safe, exact)
    decreases |rs|
  {
    if |rs| > 1 && rs[0].Ok? && !Holds(rs[0].v) {
      PickStands(rs[2..], os[2..], safe, exact);
    }
  }

  lemma {:induction false} ArgsLower(args: seq<Expr>, safe: bool, exact: bool, row: nat -> Value, fn: Functions)
    requires FaithfulArgs(args, safe, exact, row, fn)
    ensures ArgsStand(EvalAll(args, row, fn), SEvalAll(LowerAll(args, safe, fn), row, fn), safe, exact)
    decreases args
  {
    if args != [] {
      LowerStands(args[0], safe, exact, row, fn);
      Unroll(args, safe, row, fn);
      if Eval(args[0], row, fn).Ok? {
        ArgsLower(args[1..], safe, exact, row, fn);
      } else if safe {
        SafeAllNeverAbort(args[1..], row, fn);
      }
      hide Eval, SEval, Lower;
      FirstNoAbort(SEvalAll(LowerAll(args, safe, fn), row, fn));
    }
  }

  lemma FirstNoAbort(os: seq<Outcome>)
    requires os != []
    ensures NoAbort(os) <==> os[0].Val? && NoAbort(os[1..])
  {
    assert forall i :: 1 <= i < |os| ==> os[i] == os[1..][i - 1];
  }

  lemma Unroll(args: seq<Expr>, safe: bool, row: nat -> Value, fn: Functions)
    requires args != []
    ensures EvalAll(args, row, fn)[0] == Eval(args[0], row, fn)
    ensures EvalAll(args, row, fn)[1..] == EvalAll(args[1..], row, fn)
    ensures SEvalAll(LowerAll(args, safe, fn), row, fn)[0] == SEval(Lower(args[0], safe, fn), row, fn)
    ensures SEvalAll(LowerAll(args, safe, fn), row, fn)[1..] == SEvalAll(LowerAll(args[1..], safe, fn), row, fn)
  {
    assert LowerAll(args, safe, fn)[1..] == LowerAll(args[1..], safe, fn);
  }

  lemma DropTwo(args: seq<Expr>, safe: bool, row: nat -> Value, fn: Functions)
    requires |args| > 1
    ensures EvalAll(args, row, fn)[0] == Eval(args[0], row, fn)
    ensures EvalAll(args, row, fn)[1] == Eval(args[1], row, fn)
    ensures EvalAll(args, row, fn)[2..] == EvalAll(args[2..], row, fn)
    ensures SEvalAll(LowerAll(args, safe, fn), row, fn)[0] == SEval(Lower(args[0], safe, fn), row, fn)
    ensures SEvalAll(LowerAll(args, safe, fn), row, fn)[1] == SEval(Lower(args[1], safe, fn), row, fn)
    ensures SEvalAll(LowerAll(args, safe, fn), row, fn)[2..] == SEvalAll(LowerAll(args[2..], safe, fn), row, fn)
  {
    Unroll(args, safe, row, fn);
    Unroll(args[1..], safe, row, fn);
    hide *;
    assert args[1..][1..] == args[2..];
    var rs, os := EvalAll(args, row, fn), SEvalAll(LowerAll(args, safe, fn), row, fn);
    assert rs[1..][1..] == rs[2..] && os[1..][1..] == os[2..];
  }

  lemma {:induction false} CaseLower(args: seq<Expr>, safe: bool, exact: bool, row: nat -> Value, fn: Functions)
    requires FaithfulCase(args, safe, exact, row, fn)
    ensures CaseStands(EvalAll(args, row, fn), SEvalAll(LowerAll(args, safe, fn), row, fn), safe, exact)
    decreases args
  {
    if args != [] {
      LowerStands(args[0], safe, exact, row, fn);
      if |args| > 1 {
        DropTwo(args, safe, row, fn);
        if Eval(args[0], row, fn).Ok? {
          if Holds(Eval(args[0], row, fn).v) {
            LowerStands(args[1], safe, exact, row, fn);
          } else {
            CaseLower(args[2..], safe, exact, row, fn);
          }
        }
      }
    }
  }

  lemma IfErrorStands(x: Expr, c: Expr, safe: bool, exact: bool, row: nat -> Value, fn: Functions)
    requires Stands(Eval(x, row, fn), SEval(Lower(x, true, fn), row, fn), true, false)
    requires Eval(x, row, fn).Err? ==> Stands(Eval(c, row, fn), SEval(Lower(c, safe, fn), row, fn), safe, exact)
    ensures Stands(Eval(IfError(x, c), row, fn), SEval(Lower(IfError(x, c), safe, fn), row, fn), safe, exact)
  {
    CaseOfThree(SIsDeferred(Lower(x, true, fn)), Lower(c, safe, fn), Lower(x, true, fn), row, fn);
  }

  lemma IfNullStands(x: Expr, d: Expr, safe: bool, exact: bool, row: nat -> Value, fn: Functions)
    requires Stands(Eval(x, row, fn), SEval(Lower(x, safe, fn), row, fn), safe, exact)
    requires Eval(x, row, fn) == Ok(Null) ==> Stands(Eval(d, row, fn), SEval(Lower(d, safe, fn), row, fn), safe, exact)
    ensures Stands(Eval(IfNull(x, d), row, fn), SEval(Lower(IfNull(x, d), safe, fn), row, fn), safe, exact)
  {
    CaseOfThree(SIsNull(Lower(x, safe, fn)), Lower(d, safe, fn), Lower(x, safe, fn), row, fn);
  }

  lemma CallStands(f: string, args: seq<Expr>, safe: bool, exact: bool, row: nat -> Value, fn: Functions)
    requires ArgsStand(EvalAll(args, row, fn), SEvalAll(LowerAll(args, safe, fn), row, fn), safe, exact)
    requires safe && !fn.deferrable(f) ==> Apply(f, EvalAll(args, row, fn), [], fn).Ok?
    ensures Stands(Eval(Call(f, args), row, fn), SEval(Lower(Call(f, args), safe, fn), row, fn), safe, exact)
  {
    ApplyStands(f, EvalAll(args, row, fn), SEvalAll(LowerAll(args, safe, fn), row, fn), [], safe, exact, fn);
  }

  lemma ErrorStands(m: Expr, safe: bool, exact: bool, row: nat -> Value, fn: Functions)
    requires Stands(Eval(m, row, fn), SEval(Lower(m, safe, fn), row, fn), safe, exact)
    requires (!safe ==> Eval(m, row, fn) != Ok(Null)) && (safe && exact ==> Eval(m, row, fn).Ok?)
    ensures Stands(Eval(Error(m), row, fn), SEval(Lower(Error(m), safe, fn), row, fn), safe, exact)
  {}

  lemma CaseArgsStand(args: seq<Expr>, safe: bool, exact: bool, row: nat -> Value, fn: Functions)
    requires CaseStands(EvalAll(args, row, fn), SEvalAll(LowerAll(args, safe, fn), row, fn), safe, exact)
    ensures Stands(Eval(Case(args), row, fn), SEval(Lower(Case(args), safe, fn), row, fn), safe, exact)
  {
    PickStands(EvalAll(args, row, fn), SEvalAll(LowerAll(args, safe, fn), row, fn), safe, exact);
  }

  lemma {:induction false} LowerStands(e: Expr, safe: bool, exact: bool, row: nat -> Value, fn: Functions)
    requires Faithful(e, safe, exact, row, fn)
    ensures Stands(Eval(e, row, fn), SEval(Lower(e, safe, fn), row, fn), safe, exact)
    decreases e
  {
    match e
    case Lit(_) =>
    case Column(_) =>
    case Call(f, args) =>
      ArgsLower(args, safe, exact, row, fn);
      CallStands(f, args, safe, exact, row, fn);
    case Error(m) =>
      LowerStands(m, safe, exact, row, fn);
      ErrorStands(m, safe, exact, row, fn);
    case IfError(x, c) =>
      LowerStands(x, true, false, row, fn);
      if Eval(x, row, fn).Err? { LowerStands(c, safe, exact, row, fn); }
      IfErrorStands(x, c, safe, exact, row, fn);
    case IsError(x) => LowerStands(x, true, false, row, fn);
    case NullIfError(x) => LowerStands(x, true, false, row, fn);
    case IfNull(x, d) =>
      LowerStands(x, safe, exact, row, fn);
      if Eval(x, row, fn) == Ok(Null) { LowerStands(d, safe, exact, row, fn); }
      IfNullStands(x, d, safe, exact, row, fn);
    case Case(args) =>
      CaseLower(args, safe, exact, row, fn);
      CaseArgsStand(args, safe, exact, row, fn);
  }

  /**
   A whole query expression is lowered in raising mode: it yields the same value, NULL included,
   or aborts with the same error. Conditions outside handlers may fail.
   */
  lemma RaisingSound(e: Expr, row: nat -> Value, fn: Functions)
    requires Faithful(e, false, true, row, fn)
    ensures SEval(Lower(e, false, fn), row, fn) ==
              match Eval(e, row, fn) case Ok(v) => Val(Plain(v)) case Err(m) => Abort(m)
  {
    LowerStands(e, false, true, row, fn);
  }

  /** Below a handler it yields the same value, or the marker of the leftmost error. */
  lemma SafeSound(e: Expr, row: nat -> Value, fn: Functions)
    requires Faithful(e, true, true, row, fn)
    ensures SEval(Lower(e, true, fn), row, fn) ==
              match Eval(e, row, fn) case Ok(v) => Val(Plain(v)) case Err(m) => Val(Marker(m))
  {
    LowerStands(e, true, true, row, fn);
  }

  /** Detection needs less: the marker is there exactly when the expression fails. */
  lemma SafeDetects(e: Expr, row: nat -> Value, fn: Functions)
    requires Faithful(e, true, false, row, fn)
    ensures SEval(Lower(e, true, fn), row, fn).Val?
    ensures SEval(Lower(e, true, fn), row, fn).d.Marker? <==> Eval(e, row, fn).Err?
    ensures Eval(e, row, fn).Ok? ==> SEval(Lower(e, true, fn), row, fn).d == Plain(Eval(e, row, fn).v)
  {
    LowerStands(e, true, false, row, fn);
  }

  // ----- where it is not faithful -----

  lemma PickOfThree(c: Result, a: Result, b: Result)
    ensures Pick([c, a, b]) == if c.Err? then c else if Holds(c.v) then a else b
  {
    assert [c, a, b][2..] == [b];
  }

  /** IF(c, a, b) is the CASE of three arguments, on both sides. */
  lemma IfIsCase(c: Expr, a: Expr, b: Expr, safe: bool, row: nat -> Value, fn: Functions)
    ensures Eval(Case([c, a, b]), row, fn) ==
              match Eval(c, row, fn)
              case Err(m) => Err(m)
              case Ok(v) => if Holds(v) then Eval(a, row, fn) else Eval(b, row, fn)
    ensures Lower(Case([c, a, b]), safe, fn) == SCase([Lower(c, safe, fn), Lower(a, safe, fn), Lower(b, safe, fn)])
  {
    var args := [c, a, b];
    assert args[1..] == [a, b] && [a, b][1..] == [b] && [b][1..] == [];
    assert EvalAll([b], row, fn) == [Eval(b, row, fn)];
    assert EvalAll([a, b], row, fn) == [Eval(a, row, fn), Eval(b, row, fn)];
    assert EvalAll(args, row, fn) == [Eval(c, row, fn), Eval(a, row, fn), Eval(b, row, fn)];
    PickOfThree(Eval(c, row, fn), Eval(a, row, fn), Eval(b, row, fn));
    assert LowerAll([b], safe, fn) == [Lower(b, safe, fn)];
    assert LowerAll([a, b], safe, fn) == [Lower(a, safe, fn), Lower(b, safe, fn)];
  }

  /**
   Below a handler, IF over faithfully lowered parts is faithful exactly when its condition does
   not fail, or its ELSE branch happens to fail in the same way.
   */
  lemma ConditionBelowHandler(c: Expr, a: Expr, b: Expr, row: nat -> Value, fn: Functions)
    requires Stands(Eval(c, row, fn), SEval(Lower(c, true, fn), row, fn), true, true)
    requires Stands(Eval(a, row, fn), SEval(Lower(a, true, fn), row, fn), true, true)
    requires Stands(Eval(b, row, fn), SEval(Lower(b, true, fn), row, fn), true, true)
    ensures Stands(Eval(Case([c, a, b]), row, fn), SEval(Lower(Case([c, a, b]), true, fn), row, fn), true, true)
            <==> (Eval(c, row, fn).Ok? || Eval(b, row, fn) == Eval(c, row, fn))
  {
    IfIsCase(c, a, b, true, row, fn);
    CaseOfThree(Lower(c, true, fn), Lower(a, true, fn), Lower(b, true, fn), row, fn);
    hide Eval, SEval, Lower;
  }

  /** IFERROR(IF(ERROR('x'), 1, 2), 3) is 3, but the marker in the condition falls through to 2. */
  lemma FailingConditionExample(row: nat -> Value, fn: Functions)
    ensures var e := IfError(Case([Error(Lit(Text("x"))), Lit(Int(1)), Lit(Int(2))]), Lit(Int(3)));
            && Eval(e, row, fn) == Ok(Int(3))
            && SEval(Lower(e, false, fn), row, fn) == Val(Plain(Int(2)))
  {
    var c, a, b := Error(Lit(Text("x"))), Lit(Int(1)), Lit(Int(2));
    var inner := Case([c, a, b]);
    IfIsCase(c, a, b, true, row, fn);
    CaseOfThree(Lower(c, true, fn), Lower(a, true, fn), Lower(b, true, fn), row, fn);
    CaseOfThree(SIsDeferred(Lower(inner, true, fn)), Lower(Lit(Int(3)), false, fn), Lower(inner, true, fn), row, fn);
  }

  /** Outside handlers ERROR over a faithful message is faithful exactly when the message is not NULL. */
  lemma RaisedNullMessage(m: Expr, row: nat -> Value, fn: Functions)
    requires Stands(Eval(m, row, fn), SEval(Lower(m, false, fn), row, fn), false, true)
    ensures Stands(Eval(Error(m), row, fn), SEval(Lower(Error(m), false, fn), row, fn), false, true)
            <==> Eval(m, row, fn) != Ok(Null)
  {
    if Eval(m, row, fn) == Ok(Null) {
      assert SEval(Lower(Error(m), false, fn), row, fn) == Val(Plain(Null));
    }
  }

  /** Below handlers the marker of ERROR loses the error of a failing message. */
  lemma FailingMessageBelowHandler(m: Expr, row: nat -> Value, fn: Functions)
    requires Stands(Eval(m, row, fn), SEval(Lower(m, true, fn), row, fn), true, true)
    ensures Stands(Eval(Error(m), row, fn), SEval(Lower(Error(m), true, fn), row, fn), true, false)
    ensures Stands(Eval(Error(m), row, fn), SEval(Lower(Error(m), true, fn), row, fn), true, true)
            <==> (Eval(m, row, fn).Ok? || Eval(m, row, fn) == Err("ERROR"))
  {
    assert Eval(m, row, fn).Err? ==> SEval(Lower(Error(m), true, fn), row, fn) == Val(Marker("ERROR"));
  }

  /** ERROR(NULL) fails, but outside handlers it is lowered to a call that returns NULL. */
  lemma NullMessageExample(row: nat -> Value, fn: Functions)
    ensures Eval(Error(Lit(Null)), row, fn) == Err("ERROR")
    ensures SEval(Lower(Error(Lit(Null)), false, fn), row, fn) == Val(Plain(Null))
  {}

  /** ERROR(ERROR('x')) fails with x, but below a handler its marker says ERROR. */
  lemma FailingMessageExample(row: nat -> Value, fn: Functions)
    ensures var e := Error(Error(Lit(Text("x"))));
            Eval(e, row, fn) == Err("x") && SEval(Lower(e, true, fn), row, fn) == Val(Marker("ERROR"))
  {
    var m := Error(Lit(Text("x")));
    assert Eval(m, row, fn) == Err("x");
    assert SEval(Lower(m, true, fn), row, fn) == Val(Marker("x"));
  }

  /**
   Below a handler, a call over arguments that do not abort aborts exactly when the function has no deferred
   variant and the call fails.
   */
  lemma RaisingBelowHandler(f: string, args: seq<Expr>, row: nat -> Value, fn: Functions)
    requires ArgsStand(EvalAll(args, row, fn), SEvalAll(LowerAll(args, true, fn), row, fn), true, true)
    ensures SEval(Lower(Call(f, args), true, fn), row, fn).Abort?
            <==> !fn.deferrable(f) && Eval(Call(f, args), row, fn).Err?
  {
    var rs, os := EvalAll(args, row, fn), SEvalAll(LowerAll(args, true, fn), row, fn);
    if fn.deferrable(f) { SApplyNoAbort(f, os, [], fn); } else { RaisingFails(f, rs, os, [], fn); }
  }

  lemma {:induction false} RaisingFails(f: string, rs: seq<Result>, os: seq<Outcome>, done: seq<Value>, fn: Functions)
    requires ArgsStand(rs, os, true, true)
    ensures SApply(Raising, f, os, done, fn).Abort? <==> Apply(f, rs, done, fn).Err?
    decreases |rs|
  {
    if rs != [] {
      FirstNoAbort(os);
      if rs[0].Ok? { RaisingFails(f, rs[1..], os[1..], done + [rs[0].v], fn); } else { FirstAbortNone(os[1..]); }
    }
  }

  /** ISERROR(f()) with a failing user-defined f aborts instead of returning TRUE. */
  lemma RaisingExample(row: nat -> Value, fn: Functions)
    requires !fn.deferrable("f") && fn.call("f", []).Err?
    ensures var e := IsError(Call("f", []));
            Eval(e, row, fn) == Ok(Bool(true)) && SEval(Lower(e, false, fn), row, fn).Abort?
  {
    assert EvalAll([], row, fn) == [] && LowerAll([], true, fn) == [] && SEvalAll([], row, fn) == [];
  }
}

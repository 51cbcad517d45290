/**
 Evaluation of a recursive UNION, in the two forms that the recursive CTE lowering relates:

 - level by level, as GoogleSQL defines it: each iteration runs the whole recursive term over
   the new rows of the previous iteration;
 - row by row from a queue, as SQLite runs a recursive CTE: each step takes one row off the
   queue and runs every recursive SELECT over that single row.

 Neither form need terminate, so both are sequences of states indexed by the number of steps.
 */
module RecursiveUnion {
  import opened Sequences

  // ----- UNION DISTINCT -----

  datatype LevelState<T> = LevelState(seen: set<T>, added: seq<T>)

  datatype QueueState<T> = QueueState(seen: set<T>, queue: seq<T>)

  /** The rows of `rows` that are not in `seen`, each once. */
  function NewRows<T(==)>(rows: seq<T>, seen: set<T>): seq<T> {
    if rows == [] then []
    else
      var last, r := rows[|rows| - 1], NewRows(rows[..|rows| - 1], seen);
      if last in seen || last in r then r else r + [last]
  }

  lemma {:induction false} NewRowsElems<T>(rows: seq<T>, seen: set<T>)
    ensures Elems(NewRows(rows, seen)) == Elems(rows) - seen
    ensures |NewRows(rows, seen)| == |Elems(NewRows(rows, seen))|
    decreases |rows|
  {
    if rows != [] {
      var init, last := rows[..|rows| - 1], rows[|rows| - 1];
      NewRowsElems(init, seen);
      assert rows == init + [last];
      SnocElems(init, last);
      SnocElems(NewRows(init, seen), last);
      assert last in NewRows(init, seen) <==> last in Elems(NewRows(init, seen));
      hide Elems;
    }
  }

  function LevelStep<T(==)>(term: seq<T> -> seq<T>, prev: LevelState<T>): LevelState<T> {
    var added := NewRows(term(prev.added), prev.seen);
    LevelState(prev.seen + Elems(added), added)
  }

  /** Iteration 0 is the base term; iteration n+1 runs the term over the rows new in iteration n. */
  function Level<T(==)>(term: seq<T> -> seq<T>, base: seq<T>, n: nat): LevelState<T>
    decreases n
  {
    if n == 0 then LevelState(Elems(base), NewRows(base, {}))
    else LevelStep(term, Level(term, base, n - 1))
  }

  function QueueStep<T(==)>(step: T -> seq<T>, prev: QueueState<T>): QueueState<T> {
    if prev.queue == [] then prev
    else
      var added := NewRows(step(prev.queue[0]), prev.seen);
      QueueState(prev.seen + Elems(added), prev.queue[1..] + added)
  }

  /** One row at a time: `step` is what the recursive SELECTs produce for one row. */
  function Queue<T(==)>(step: T -> seq<T>, init: seq<T>, m: nat): QueueState<T>
    decreases m
  {
    if m == 0 then QueueState(Elems(init), NewRows(init, {}))
    else QueueStep(step, Queue(step, init, m - 1))
  }

  /** What `step` makes of the rows of s. */
  ghost function Image<T>(step: T -> seq<T>, s: set<T>): set<T> {
    set x, y | x in s && y in step(x) :: y
  }

  /** The recursive term adds the rows of `consts` and what `step` makes of each row, as a set. */
  ghost predicate SplitsAsSet<T(!new)>(term: seq<T> -> seq<T>, step: T -> seq<T>, consts: seq<T>) {
    forall rows :: Elems(term(rows)) == Elems(consts) + Image(step, Elems(rows))
  }

  /** Rows reachable from `init` in at most n applications of `step`. */
  ghost function Reach<T>(step: T -> seq<T>, init: set<T>, n: nat): set<T>
    decreases n
  {
    if n == 0 then init
    else Reach(step, init, n - 1) + Image(step, Reach(step, init, n - 1))
  }

  lemma ImageMonotone<T>(step: T -> seq<T>, a: set<T>, b: set<T>)
    requires a <= b
    ensures Image(step, a) <= Image(step, b)
  {}

  lemma ImageSplit<T>(step: T -> seq<T>, s: set<T>, a: set<T>)
    ensures Image(step, s + a) == Image(step, s) + Image(step, a)
  {}

  lemma {:induction false} ReachWithin<T>(step: T -> seq<T>, init: set<T>, n: nat, s: set<T>)
    requires init <= s && Image(step, s) <= s
    ensures Reach(step, init, n) <= s
    decreases n
  {
    if n > 0 {
      ReachWithin(step, init, n - 1, s);
      ImageMonotone(step, Reach(step, init, n - 1), s);
    }
  }

  lemma {:induction false} ReachStart<T>(step: T -> seq<T>, init: set<T>, n: nat)
    ensures init <= Reach(step, init, n)
    decreases n
  {
    if n > 0 { ReachStart(step, init, n - 1); }
  }

  /** Every row of `seen` outside `waiting` has been expanded into `seen`. */
  ghost predicate Expanded<T>(step: T -> seq<T>, seen: set<T>, waiting: set<T>) {
    waiting <= seen && Image(step, seen - waiting) <= seen
  }

  /** An iteration expands every row seen before it. */
  lemma LevelStepExpands<T(!new)>(term: seq<T> -> seq<T>, step: T -> seq<T>, consts: seq<T>, prev: LevelState<T>)
    requires SplitsAsSet(term, step, consts)
    requires Expanded(step, prev.seen, Elems(prev.added))
    ensures var next := LevelStep(term, prev);
            && Expanded(step, next.seen, Elems(next.added))
            && next.seen - Elems(next.added) == prev.seen
            && next.seen == prev.seen + Elems(consts) + Image(step, Elems(prev.added))
            && Image(step, prev.seen) <= next.seen
  {
    var next, waiting := LevelStep(term, prev), Elems(prev.added);
    hide Elems, NewRows, Image;
    assert Elems(term(prev.added)) == Elems(consts) + Image(step, waiting);
    NewRowsElems(term(prev.added), prev.seen);
    ImageSplit(step, prev.seen - waiting, waiting);
    assert (prev.seen - waiting) + waiting == prev.seen;
    StepSets(prev.seen, Elems(consts) + Image(step, waiting), Elems(next.added), Image(step, prev.seen - waiting));
    assert prev.seen + Elems(consts) + Image(step, waiting) == prev.seen + (Elems(consts) + Image(step, waiting));
  }

  lemma StepSets<T>(seen: set<T>, produced: set<T>, added: set<T>, image: set<T>)
    requires added == produced - seen && image <= seen
    ensures added <= seen + added && (seen + added) - added == seen && seen + added == seen + produced
    ensures image + produced <= seen + added
  {}

  lemma LevelStart<T(!new)>(term: seq<T> -> seq<T>, step: T -> seq<T>, base: seq<T>)
    ensures var l := Level(term, base, 0);
            l.seen == Elems(base) && Expanded(step, l.seen, Elems(l.added))
  {
    NewRowsElems(base, {});
    assert Elems(base) - Elems(NewRows(base, {})) == {};
  }

  lemma {:induction false} LevelExpands<T(!new)>(term: seq<T> -> seq<T>, step: T -> seq<T>, consts: seq<T>,
      base: seq<T>, n: nat)
    requires SplitsAsSet(term, step, consts)
    ensures Expanded(step, Level(term, base, n).seen, Elems(Level(term, base, n).added))
    decreases n
  {
    hide Image, Elems, NewRows, Expanded, SplitsAsSet, LevelStep;
    if n == 0 {
      LevelStart(term, step, base);
    } else {
      LevelExpands(term, step, consts, base, n - 1);
      LevelStepExpands(term, step, consts, Level(term, base, n - 1));
    }
  }

  lemma {:induction false} LevelHolds<T(!new)>(term: seq<T> -> seq<T>, step: T -> seq<T>, consts: seq<T>,
      base: seq<T>, n: nat)
    requires SplitsAsSet(term, step, consts)
    ensures Elems(base) <= Level(term, base, n).seen
    ensures n > 0 ==> Elems(consts) <= Level(term, base, n).seen
    decreases n
  {
    hide Image, Elems, NewRows, Expanded, SplitsAsSet, LevelStep;
    if n == 0 {
      LevelStart(term, step, base);
    } else {
      LevelHolds(term, step, consts, base, n - 1);
      LevelExpands(term, step, consts, base, n - 1);
      LevelStepKeeps(term, step, consts, Level(term, base, n - 1));
    }
  }

  lemma LevelStepKeeps<T(!new)>(term: seq<T> -> seq<T>, step: T -> seq<T>, consts: seq<T>, prev: LevelState<T>)
    requires SplitsAsSet(term, step, consts)
    requires Expanded(step, prev.seen, Elems(prev.added))
    ensures prev.seen + Elems(consts) <= LevelStep(term, prev).seen
  {
    LevelStepExpands(term, step, consts, prev);
  }

  /** An iteration reaches at most one step further than the rows seen before it. */
  lemma LevelStepWithin<T(!new)>(term: seq<T> -> seq<T>, step: T -> seq<T>, consts: seq<T>, prev: LevelState<T>,
      reach: set<T>)
    requires SplitsAsSet(term, step, consts)
    requires Expanded(step, prev.seen, Elems(prev.added))
    requires prev.seen <= reach && Elems(consts) <= reach
    ensures LevelStep(term, prev).seen <= reach + Image(step, reach)
  {
    LevelStepExpands(term, step, consts, prev);
    ImageMonotone(step, Elems(prev.added), reach);
  }

  /** ... and at least one step further than any rows reached before it. */
  lemma LevelStepCovers<T(!new)>(term: seq<T> -> seq<T>, step: T -> seq<T>, consts: seq<T>, prev: LevelState<T>,
      reach: set<T>)
    requires SplitsAsSet(term, step, consts)
    requires Expanded(step, prev.seen, Elems(prev.added))
    requires reach <= prev.seen
    ensures reach + Image(step, reach) <= LevelStep(term, prev).seen
  {
    LevelStepExpands(term, step, consts, prev);
    ImageMonotone(step, reach, prev.seen);
  }

  lemma {:induction false} LevelWithinReach<T(!new)>(term: seq<T> -> seq<T>, step: T -> seq<T>, consts: seq<T>,
      base: seq<T>, n: nat)
    requires SplitsAsSet(term, step, consts)
    ensures Level(term, base, n).seen <= Reach(step, Elems(base) + Elems(consts), n)
    decreases n
  {
    hide Image, Elems, NewRows, Expanded, LevelStep, QueueStep, SplitsAsSet;
    if n == 0 {
      LevelStart(term, step, base);
    } else {
      var init := Elems(base) + Elems(consts);
      LevelWithinReach(term, step, consts, base, n - 1);
      LevelExpands(term, step, consts, base, n - 1);
      ReachStart(step, init, n - 1);
      LevelStepWithin(term, step, consts, Level(term, base, n - 1), Reach(step, init, n - 1));
    }
  }

  lemma {:induction false} ReachWithinLevel<T(!new)>(term: seq<T> -> seq<T>, step: T -> seq<T>, consts: seq<T>,
      base: seq<T>, n: nat)
    requires SplitsAsSet(term, step, consts)
    ensures Reach(step, Elems(base) + Elems(consts), n) <= Level(term, base, n + 1).seen
    decreases n
  {
    hide Image, Elems, NewRows, Expanded, SplitsAsSet, LevelStep;
    if n == 0 {
      LevelHolds(term, step, consts, base, 1);
    } else {
      ReachWithinLevel(term, step, consts, base, n - 1);
      LevelExpands(term, step, consts, base, n);
      LevelStepCovers(term, step, consts, Level(term, base, n), Reach(step, Elems(base) + Elems(consts), n - 1));
    }
  }

  /** Taking the head off a set with new elements added. */
  lemma HeadOff<T>(seen: set<T>, tail: set<T>, head: T, added: set<T>)
    requires head !in tail && {head} + tail <= seen && added !! seen
    ensures (seen + added) - (tail + added) == seen - ({head} + tail) + {head}
    ensures tail + added <= seen + added && tail !! added
  {}

  lemma DisjointSize<T>(a: set<T>, b: set<T>)
    requires a !! b
    ensures |a + b| == |a| + |b|
  {}

  /** Taking the head off a repetition-free queue. */
  lemma QueueStepSets<T>(seen: set<T>, queue: seq<T>, added: seq<T>)
    requires queue != [] && Elems(queue) <= seen && Elems(added) !! seen
    requires |queue| == |Elems(queue)| && |added| == |Elems(added)|
    ensures (seen + Elems(added)) - Elems(queue[1..] + added) == seen - Elems(queue) + {queue[0]}
    ensures Elems(queue[1..] + added) <= seen + Elems(added)
    ensures |queue[1..] + added| == |Elems(queue[1..] + added)|
    ensures |seen + Elems(added)| - |queue[1..] + added| == |seen| - |queue| + 1
  {
    DistinctTail(queue);
    ConcatElems(queue[1..], added);
    assert queue[0] !in Elems(queue[1..]);
    hide Elems;
    HeadOff(seen, Elems(queue[1..]), queue[0], Elems(added));
    DisjointSize(seen, Elems(added));
    DisjointSize(Elems(queue[1..]), Elems(added));
  }

  /** A queue step expands the head of the queue and keeps the queue free of repetitions. */
  lemma QueueStepExpands<T>(step: T -> seq<T>, prev: QueueState<T>)
    requires prev.queue != []
    requires Expanded(step, prev.seen, Elems(prev.queue))
    requires |prev.queue| == |Elems(prev.queue)|
    ensures var next := QueueStep(step, prev);
            && next.seen == prev.seen + Image(step, {prev.queue[0]})
            && next.seen - Elems(next.queue) == prev.seen - Elems(prev.queue) + {prev.queue[0]}
            && prev.queue[1..] <= next.queue
            && Expanded(step, next.seen, Elems(next.queue))
            && |next.queue| == |Elems(next.queue)|
            && |next.seen| - |next.queue| == |prev.seen| - |prev.queue| + 1
  {
    var head := prev.queue[0];
    var added := NewRows(step(head), prev.seen);
    NewRowsElems(step(head), prev.seen);
    ImageOne(step, head);
    var done := prev.seen - Elems(prev.queue);
    ImageSplit(step, done, {head});
    hide NewRows, Elems, Image;
    QueueStepSets(prev.seen, prev.queue, added);
  }

  lemma ImageOne<T>(step: T -> seq<T>, x: T)
    ensures Image(step, {x}) == Elems(step(x))
  {}

  lemma ConcatElems<T>(s: seq<T>, t: seq<T>)
    ensures Elems(s + t) == Elems(s) + Elems(t)
    ensures Elems(s) !! Elems(t) ==> |Elems(s + t)| == |Elems(s)| + |Elems(t)|
  {}

  lemma SnocElems<T>(s: seq<T>, x: T)
    ensures Elems(s + [x]) == Elems(s) + {x}
  {}

  lemma DistinctTail<T>(s: seq<T>)
    requires s != [] && |s| == |Elems(s)|
    ensures Elems(s) == {s[0]} + Elems(s[1..])
    ensures s[0] !in s[1..] && |s[1..]| == |Elems(s[1..])|
  {
    ElemsBound(s[1..]);
    assert s == [s[0]] + s[1..];
    assert Elems(s) == {s[0]} + Elems(s[1..]);
  }

  lemma {:induction false} ElemsBound<T>(s: seq<T>)
    ensures |Elems(s)| <= |s|
  {
    if s != [] {
      ElemsBound(s[1..]);
      assert s == [s[0]] + s[1..];
      assert Elems(s) == {s[0]} + Elems(s[1..]);
    }
  }

  /** The queue never repeats a row, and every seen row is waiting or already expanded. */
  ghost predicate QueueInv<T>(step: T -> seq<T>, m: nat, q: QueueState<T>) {
    && Expanded(step, q.seen, Elems(q.queue))
    && |q.queue| == |Elems(q.queue)|
    && (q.queue != [] ==> m + |q.queue| == |q.seen|)
  }

  lemma {:induction false} QueueInvariant<T>(step: T -> seq<T>, init: seq<T>, m: nat)
    ensures QueueInv(step, m, Queue(step, init, m))
    decreases m
  {
    if m == 0 {
      NewRowsElems(init, {});
      assert Elems(init) - Elems(NewRows(init, {})) == {};
    } else {
      QueueInvariant(step, init, m - 1);
      var prev := Queue(step, init, m - 1);
      if prev.queue != [] { QueueStepExpands(step, prev); }
    }
  }

  lemma {:induction false} QueueHolds<T>(step: T -> seq<T>, init: seq<T>, m: nat)
    ensures Elems(init) <= Queue(step, init, m).seen
    decreases m
  {
    if m > 0 { QueueHolds(step, init, m - 1); }
  }

  lemma QueueStepWithin<T>(step: T -> seq<T>, m: nat, prev: QueueState<T>, reach: set<T>)
    requires QueueInv(step, m, prev) && prev.seen <= reach
    ensures QueueStep(step, prev).seen <= reach + Image(step, reach)
  {
    if prev.queue != [] {
      QueueStepExpands(step, prev);
      assert prev.queue[0] in Elems(prev.queue);
      ImageMonotone(step, {prev.queue[0]}, reach);
    }
  }

  lemma {:induction false} QueueWithinReach<T>(step: T -> seq<T>, init: seq<T>, m: nat)
    ensures Queue(step, init, m).seen <= Reach(step, Elems(init), m)
    decreases m
  {
    hide Image, Elems, NewRows, Expanded, LevelStep, QueueStep, SplitsAsSet;
    if m > 0 {
      QueueWithinReach(step, init, m - 1);
      QueueInvariant(step, init, m - 1);
      QueueStepWithin(step, m - 1, Queue(step, init, m - 1), Reach(step, Elems(init), m - 1));
    }
  }

  /** First in, first out: after k steps the first k waiting rows have left the queue. */
  ghost predicate Drained<T>(q: QueueState<T>, k: nat, r: QueueState<T>)
    requires k <= |q.queue|
  {
    && q.seen <= r.seen
    && q.queue[k..] <= r.queue
    && r.seen - Elems(r.queue) >= Elems(q.queue[..k])
  }

  lemma DrainNone<T>(q: QueueState<T>)
    ensures Drained(q, 0, q)
  {
    assert q.queue[0..] == q.queue;
  }

  lemma DrainOne<T>(step: T -> seq<T>, m: nat, q: QueueState<T>, k: nat, p: QueueState<T>)
    requires k < |q.queue| && Drained(q, k, p) && QueueInv(step, m, p)
    ensures Drained(q, k + 1, QueueStep(step, p))
  {
    hide Image, Elems, NewRows, Expanded, QueueStep;
    var head := q.queue[k];
    assert q.queue[k..][0] == head && p.queue[0] == head;
    QueueStepExpands(step, p);
    assert q.queue[k + 1..] == q.queue[k..][1..];
    assert q.queue[..k + 1] == q.queue[..k] + [head];
    SnocElems(q.queue[..k], head);
  }

  lemma {:induction false} QueueDrains<T>(step: T -> seq<T>, init: seq<T>, m: nat, k: nat)
    requires k <= |Queue(step, init, m).queue|
    ensures Drained(Queue(step, init, m), k, Queue(step, init, m + k))
    decreases k
  {
    hide Image, Elems, NewRows, Drained, QueueStep;
    if k == 0 {
      DrainNone(Queue(step, init, m));
    } else {
      QueueDrains(step, init, m, k - 1);
      QueueInvariant(step, init, m + k - 1);
      DrainOne(step, m + k - 1, Queue(step, init, m), k - 1, Queue(step, init, m + k - 1));
    }
  }

  lemma DrainedCovers<T>(step: T -> seq<T>, m: nat, q: QueueState<T>, n: nat, r: QueueState<T>, reach: set<T>)
    requires QueueInv(step, m, q) && QueueInv(step, n, r) && Drained(q, |q.queue|, r)
    requires reach <= q.seen
    ensures reach + Image(step, reach) <= r.seen
  {
    assert q.queue[..|q.queue|] == q.queue;
    var done, waiting := q.seen - Elems(q.queue), Elems(q.queue);
    assert done + waiting == q.seen;
    ImageSplit(step, done, waiting);
    ImageMonotone(step, waiting, r.seen - Elems(r.queue));
    ImageMonotone(step, reach, q.seen);
  }

  /** Fairness: every reachable row is seen after finitely many queue steps. */
  lemma {:induction false} QueueReaches<T>(step: T -> seq<T>, init: seq<T>, n: nat) returns (m: nat)
    ensures Reach(step, Elems(init), n) <= Queue(step, init, m).seen
    decreases n
  {
    hide Image, Elems, NewRows, Expanded, LevelStep, QueueStep, SplitsAsSet;
    if n == 0 {
      m := 0;
    } else {
      var m' := QueueReaches(step, init, n - 1);
      var q := Queue(step, init, m');
      m := m' + |q.queue|;
      QueueInvariant(step, init, m');
      QueueInvariant(step, init, m);
      QueueDrains(step, init, m', |q.queue|);
      DrainedCovers(step, m', q, m, Queue(step, init, m), Reach(step, Elems(init), n - 1));
    }
  }

  ghost predicate LevelProduces<T(!new)>(term: seq<T> -> seq<T>, base: seq<T>, x: T) {
    exists n: nat :: x in Level(term, base, n).seen
  }

  ghost predicate QueueProduces<T(!new)>(step: T -> seq<T>, init: seq<T>, x: T) {
    exists m: nat :: x in Queue(step, init, m).seen
  }

  /** "Repeat until step 2 produces an empty result": some iteration after the base adds nothing. */
  ghost predicate LevelStops<T>(term: seq<T> -> seq<T>, base: seq<T>, n: nat) {
    n > 0 && Level(term, base, n).added == []
  }

  ghost predicate QueueStops<T>(step: T -> seq<T>, init: seq<T>, m: nat) {
    Queue(step, init, m).queue == []
  }

  ghost predicate LevelEnds<T(!new)>(term: seq<T> -> seq<T>, base: seq<T>) {
    exists n: nat :: LevelStops(term, base, n)
  }

  ghost predicate QueueEnds<T(!new)>(step: T -> seq<T>, init: seq<T>) {
    exists m: nat :: QueueStops(step, init, m)
  }

  /**
   UNION DISTINCT: running one recursive SELECT per branch from a de-duplicating queue that
   starts with the base rows and the hoisted constant rows produces exactly the rows of the
   level-by-level iteration of the whole term, whether or not the recursion terminates.
   */
  lemma DistinctSameRows<T(!new)>(term: seq<T> -> seq<T>, step: T -> seq<T>, consts: seq<T>, base: seq<T>)
    requires SplitsAsSet(term, step, consts)
    ensures forall x :: LevelProduces(term, base, x) <==> QueueProduces(step, base + consts, x)
  {
    forall x ensures LevelProduces(term, base, x) <==> QueueProduces(step, base + consts, x) {
      DistinctSameRow(term, step, consts, base, x);
    }
  }

  lemma DistinctSameRow<T(!new)>(term: seq<T> -> seq<T>, step: T -> seq<T>, consts: seq<T>, base: seq<T>, x: T)
    requires SplitsAsSet(term, step, consts)
    ensures LevelProduces(term, base, x) <==> QueueProduces(step, base + consts, x)
  {
    var init := base + consts;
    ConcatElems(base, consts);
    if LevelProduces(term, base, x) {
      var n: nat :| x in Level(term, base, n).seen;
      LevelWithinReach(term, step, consts, base, n);
      var m := QueueReaches(step, init, n);
      assert x in Queue(step, init, m).seen;
    }
    if QueueProduces(step, init, x) {
      var m: nat :| x in Queue(step, init, m).seen;
      QueueWithinReach(step, init, m);
      ReachWithinLevel(term, step, consts, base, m);
      assert x in Level(term, base, m + 1).seen;
    }
  }

  /** Both forms stop on the same inputs, and then with the same rows. */
  lemma DistinctSameTermination<T(!new)>(term: seq<T> -> seq<T>, step: T -> seq<T>, consts: seq<T>, base: seq<T>)
    requires SplitsAsSet(term, step, consts)
    ensures LevelEnds(term, base) <==> QueueEnds(step, base + consts)
    ensures forall n: nat, m: nat :: LevelStops(term, base, n) && QueueStops(step, base + consts, m) ==>
              Level(term, base, n).seen == Queue(step, base + consts, m).seen
  {
    var init := base + consts;
    forall n: nat | LevelStops(term, base, n)
      ensures QueueStops(step, init, |Level(term, base, n).seen|)
    {
      LevelBoundsQueue(term, step, consts, base, n);
    }
    forall m: nat | QueueStops(step, init, m)
      ensures exists n: nat :: LevelStops(term, base, n)
    {
      QueueBoundsLevel(term, step, consts, base, m);
    }
    forall n: nat, m: nat | LevelStops(term, base, n) && QueueStops(step, init, m)
      ensures Level(term, base, n).seen == Queue(step, init, m).seen
    {
      StoppedSame(term, step, consts, base, n, m);
    }
  }

  lemma StoppedSame<T(!new)>(term: seq<T> -> seq<T>, step: T -> seq<T>, consts: seq<T>, base: seq<T>, n: nat, m: nat)
    requires SplitsAsSet(term, step, consts)
    requires LevelStops(term, base, n) && QueueStops(step, base + consts, m)
    ensures Level(term, base, n).seen == Queue(step, base + consts, m).seen
  {
    var init := base + consts;
    var l, q := Level(term, base, n), Queue(step, init, m);
    ConcatElems(base, consts);
    QueueStoppedClosed(step, init, m);
    LevelWithinReach(term, step, consts, base, n);
    ReachWithin(step, Elems(init), n, q.seen);
    QueueWithinReach(step, init, m);
    LevelStoppedClosed(term, step, consts, base, n);
    ReachWithin(step, Elems(init), m, l.seen);
  }

  lemma LevelStoppedClosed<T(!new)>(term: seq<T> -> seq<T>, step: T -> seq<T>, consts: seq<T>, base: seq<T>, n: nat)
    requires SplitsAsSet(term, step, consts) && LevelStops(term, base, n)
    ensures var l := Level(term, base, n);
            Elems(base + consts) <= l.seen && Image(step, l.seen) <= l.seen
  {
    var l := Level(term, base, n);
    ConcatElems(base, consts);
    LevelExpands(term, step, consts, base, n);
    LevelHolds(term, step, consts, base, n);
    assert l.seen - Elems(l.added) == l.seen;
  }

  lemma QueueStoppedClosed<T>(step: T -> seq<T>, init: seq<T>, m: nat)
    requires QueueStops(step, init, m)
    ensures var q := Queue(step, init, m);
            Elems(init) <= q.seen && Image(step, q.seen) <= q.seen
  {
    var q := Queue(step, init, m);
    QueueInvariant(step, init, m);
    QueueHolds(step, init, m);
    assert q.seen - Elems(q.queue) == q.seen;
  }

  /** A queue step always takes a row it has not taken before, so |seen| steps are enough. */
  lemma LevelBoundsQueue<T(!new)>(term: seq<T> -> seq<T>, step: T -> seq<T>, consts: seq<T>, base: seq<T>, n: nat)
    requires SplitsAsSet(term, step, consts) && LevelStops(term, base, n)
    ensures QueueStops(step, base + consts, |Level(term, base, n).seen|)
  {
    var init, l := base + consts, Level(term, base, n);
    var m := |l.seen|;
    LevelStoppedClosed(term, step, consts, base, n);
    QueueInvariant(step, init, m);
    QueueWithinReach(step, init, m);
    ReachWithin(step, Elems(init), m, l.seen);
    SubsetSize(Queue(step, init, m).seen, l.seen);
  }

  lemma SubsetSize<T>(a: set<T>, b: set<T>)
    requires a <= b
    ensures |a| <= |b|
    ensures a != b ==> |a| < |b|
  {
    assert b == a + (b - a);
  }

  /** Iterations that all add a row would exceed the finite set the queue ended with. */
  lemma QueueBoundsLevel<T(!new)>(term: seq<T> -> seq<T>, step: T -> seq<T>, consts: seq<T>, base: seq<T>, m: nat)
    requires SplitsAsSet(term, step, consts)
    requires QueueStops(step, base + consts, m)
    ensures exists n: nat :: LevelStops(term, base, n)
  {
    var init := base + consts;
    var bound := Queue(step, init, m).seen;
    if forall n: nat :: !LevelStops(term, base, n) {
      var n := |bound| + 1;
      ConcatElems(base, consts);
      QueueStoppedClosed(step, init, m);
      LevelGrows(term, base, n);
      LevelWithinReach(term, step, consts, base, n);
      ReachWithin(step, Elems(init), n, bound);
      SubsetSize(Level(term, base, n).seen, bound);
      assert false;
    }
  }

  lemma LevelStepGrows<T(!new)>(term: seq<T> -> seq<T>, prev: LevelState<T>)
    requires LevelStep(term, prev).added != []
    ensures |prev.seen| < |LevelStep(term, prev).seen|
  {
    var next := LevelStep(term, prev);
    NewRowsElems(term(prev.added), prev.seen);
    assert next.added[0] in Elems(next.added);
    assert next.added[0] !in prev.seen && next.added[0] in next.seen;
    SubsetSize(prev.seen, next.seen);
  }

  lemma {:induction false} LevelGrows<T(!new)>(term: seq<T> -> seq<T>, base: seq<T>, n: nat)
    requires forall k: nat :: !LevelStops(term, base, k)
    ensures |Level(term, base, n).seen| >= n
    decreases n
  {
    hide Elems, NewRows, LevelStep;
    if n > 0 {
      LevelGrows(term, base, n - 1);
      assert !LevelStops(term, base, n);
      LevelStepGrows(term, Level(term, base, n - 1));
    }
  }

  /**
   The other documented reading stops as soon as an iteration, the base included, moves no row
   on: an empty base then ends the recursion before the term runs once.
   */
  ghost predicate EagerProduces<T(!new)>(term: seq<T> -> seq<T>, base: seq<T>, x: T) {
    base != [] && LevelProduces(term, base, x)
  }

  /** Under that reading the hoisting is right exactly when the base has a row or nothing is hoisted. */
  lemma EagerSameRows<T(!new)>(term: seq<T> -> seq<T>, step: T -> seq<T>, consts: seq<T>, base: seq<T>)
    requires SplitsAsSet(term, step, consts)
    ensures (forall x :: EagerProduces(term, base, x) <==> QueueProduces(step, base + consts, x))
            <==> (base != [] || consts == [])
  {
    DistinctSameRows(term, step, consts, base);
    var init := base + consts;
    if base == [] && consts != [] {
      assert init[0] in Queue(step, init, 0).seen;
      assert QueueProduces(step, init, init[0]) && !EagerProduces(term, base, init[0]);
    }
    if base == [] && consts == [] {
      assert init == [];
      forall x ensures !QueueProduces(step, init, x) {
        forall m ensures Queue(step, init, m).seen == {} { EmptyQueueStays(step, m); }
      }
    }
  }

  /** The term `SELECT 1 UNION ALL SELECT * FROM cte`, with 1 hoisted and the reference left. */
  function OneAndSelf(): seq<int> -> seq<int> { rows => [1] + rows }

  function Self(): int -> seq<int> { x => [x] }

  lemma SelfImage(s: set<int>)
    ensures Image(Self(), s) == s
  {
    forall x | x in s ensures x in Image(Self(), s) { assert x in Self()(x); }
  }

  /** Over an empty base the hoisted row appears although the recursion never starts. */
  lemma EmptyBaseExample()
    ensures SplitsAsSet(OneAndSelf(), Self(), [1])
    ensures !EagerProduces(OneAndSelf(), [], 1) && QueueProduces(Self(), [] + [1], 1)
  {
    forall rows: seq<int> ensures Elems(OneAndSelf()(rows)) == Elems([1]) + Image(Self(), Elems(rows)) {
      ConcatElems([1], rows);
      SelfImage(Elems(rows));
    }
    hide SplitsAsSet, Image;
    EagerSameRows(OneAndSelf(), Self(), [1], []);
    assert 1 in Queue(Self(), [] + [1], 0).seen;
  }

  lemma {:induction false} EmptyQueueStays<T>(step: T -> seq<T>, m: nat)
    ensures Queue(step, [], m) == QueueState({}, [])
    decreases m
  {
    if m > 0 { EmptyQueueStays(step, m - 1); }
  }

  // ----- UNION ALL -----

  datatype Drain<T> = Drain(out: seq<T>, queue: seq<T>)

  function AllLevel<T>(term: seq<T> -> seq<T>, base: seq<T>, n: nat): seq<T>
    decreases n
  {
    if n == 0 then base else term(AllLevel(term, base, n - 1))
  }

  /** All rows of the first n iterations. */
  function AllRows<T>(term: seq<T> -> seq<T>, base: seq<T>, n: nat): seq<T>
    decreases n
  {
    if n == 0 then [] else AllRows(term, base, n - 1) + AllLevel(term, base, n - 1)
  }

  function AllQueueStep<T>(step: T -> seq<T>, prev: Drain<T>): Drain<T> {
    if prev.queue == [] then prev
    else Drain(prev.out + [prev.queue[0]], prev.queue[1..] + step(prev.queue[0]))
  }

  function AllQueue<T>(step: T -> seq<T>, init: seq<T>, m: nat): Drain<T>
    decreases m
  {
    if m == 0 then Drain([], init) else AllQueueStep(step, AllQueue(step, init, m - 1))
  }

  ghost predicate SplitsAsBag<T(!new)>(term: seq<T> -> seq<T>, step: T -> seq<T>) {
    forall rows :: multiset(term(rows)) == multiset(FlatMap(step, rows))
  }

  ghost predicate AllLevelStops<T>(term: seq<T> -> seq<T>, base: seq<T>, n: nat) {
    AllLevel(term, base, n) == []
  }

  ghost predicate AllQueueStops<T>(step: T -> seq<T>, init: seq<T>, m: nat) {
    AllQueue(step, init, m).queue == []
  }

  ghost predicate AllLevelEnds<T(!new)>(term: seq<T> -> seq<T>, base: seq<T>) {
    exists n: nat :: AllLevelStops(term, base, n)
  }

  ghost predicate AllQueueEnds<T(!new)>(step: T -> seq<T>, init: seq<T>) {
    exists m: nat :: AllQueueStops(step, init, m)
  }

  /** `r` is what taking k waiting rows off `q` leaves: they are emitted and their results enqueued. */
  ghost predicate TookRows<T>(step: T -> seq<T>, q: Drain<T>, k: nat, r: Drain<T>)
    requires k <= |q.queue|
  {
    && r.out == q.out + q.queue[..k]
    && r.queue == q.queue[k..] + FlatMap(step, q.queue[..k])
  }

  lemma TakeOne<T>(step: T -> seq<T>, q: Drain<T>, k: nat, p: Drain<T>)
    requires k < |q.queue| && TookRows(step, q, k, p)
    ensures TookRows(step, q, k + 1, AllQueueStep(step, p))
  {
    var head := q.queue[k];
    assert q.queue[..k + 1] == q.queue[..k] + [head];
    FlatMapSnoc(step, q.queue[..k], head);
    assert p.queue[0] == head;
    assert p.queue[1..] == q.queue[k + 1..] + FlatMap(step, q.queue[..k]);
    hide FlatMap;
  }

  lemma {:induction false} AllQueueDrains<T>(step: T -> seq<T>, init: seq<T>, m: nat, k: nat)
    requires k <= |AllQueue(step, init, m).queue|
    ensures TookRows(step, AllQueue(step, init, m), k, AllQueue(step, init, m + k))
    decreases k
  {
    var q := AllQueue(step, init, m);
    if k == 0 {
      assert q.queue[0..] + FlatMap(step, q.queue[..0]) == q.queue;
    } else {
      hide TookRows;
      AllQueueDrains(step, init, m, k - 1);
      TakeOne(step, q, k - 1, AllQueue(step, init, m + k - 1));
      assert AllQueue(step, init, m + k) == AllQueueStep(step, AllQueue(step, init, m + k - 1));
    }
  }

  /** `q` has emitted the rows of some iterations and holds the next iteration, in any order. */
  ghost predicate AtLevel<T>(q: Drain<T>, rows: seq<T>, level: seq<T>) {
    && |q.out| == |rows|
    && multiset(q.out) == multiset(rows)
    && |q.queue| == |level|
    && multiset(q.queue) == multiset(level)
  }

  lemma BagLength<T>(s: seq<T>, t: seq<T>)
    requires multiset(s) == multiset(t)
    ensures |s| == |t|
  {
    assert |s| == |multiset(s)| == |multiset(t)| == |t|;
  }

  lemma AtNextLevel<T(!new)>(term: seq<T> -> seq<T>, step: T -> seq<T>, q: Drain<T>, rows: seq<T>, level: seq<T>,
      r: Drain<T>)
    requires SplitsAsBag(term, step) && AtLevel(q, rows, level)
    requires r.out == q.out + q.queue && r.queue == FlatMap(step, q.queue)
    ensures AtLevel(r, rows + level, term(level))
  {
    FlatMapBag(step, q.queue, level);
    assert multiset(term(level)) == multiset(FlatMap(step, level));
    hide FlatMap, SplitsAsBag;
    BagLength(r.queue, term(level));
  }

  /** Draining a queue that holds an iteration leaves one that holds the next. */
  lemma AllQueueNextLevel<T(!new)>(term: seq<T> -> seq<T>, step: T -> seq<T>, init: seq<T>, rows: seq<T>, level: seq<T>)
    requires SplitsAsBag(term, step)
    requires AtLevel(AllQueue(step, init, |rows|), rows, level)
    ensures AtLevel(AllQueue(step, init, |rows + level|), rows + level, term(level))
  {
    hide AllQueue, FlatMap, SplitsAsBag, TookRows;
    var q := AllQueue(step, init, |rows|);
    assert |q.queue| == |level|;
    AllQueueDrains(step, init, |rows|, |q.queue|);
    assert |rows + level| == |rows| + |q.queue|;
    var r := AllQueue(step, init, |rows + level|);
    TookAll(step, q, r);
    hide AtLevel;
    AtNextLevel(term, step, q, rows, level, r);
  }

  lemma TookAll<T>(step: T -> seq<T>, q: Drain<T>, r: Drain<T>)
    requires TookRows(step, q, |q.queue|, r)
    ensures r.out == q.out + q.queue && r.queue == FlatMap(step, q.queue)
  {
    assert q.queue[..|q.queue|] == q.queue && q.queue[|q.queue|..] == [];
    hide FlatMap;
    assert [] + FlatMap(step, q.queue) == FlatMap(step, q.queue);
  }

  /** After as many steps as n iterations have rows, the queue holds iteration n. */
  lemma AllQueueStart<T>(term: seq<T> -> seq<T>, step: T -> seq<T>, base: seq<T>)
    ensures AtLevel(AllQueue(step, base, |AllRows(term, base, 0)|), AllRows(term, base, 0), AllLevel(term, base, 0))
  {}

  lemma AllStep<T>(term: seq<T> -> seq<T>, base: seq<T>, n: nat)
    requires n > 0
    ensures AllRows(term, base, n) == AllRows(term, base, n - 1) + AllLevel(term, base, n - 1)
    ensures AllLevel(term, base, n) == term(AllLevel(term, base, n - 1))
  {}

  lemma {:induction false} AllQueueAtLevel<T(!new)>(term: seq<T> -> seq<T>, step: T -> seq<T>, base: seq<T>, n: nat)
    requires SplitsAsBag(term, step)
    ensures AtLevel(AllQueue(step, base, |AllRows(term, base, n)|), AllRows(term, base, n), AllLevel(term, base, n))
    decreases n
  {
    hide *;
    if n == 0 {
      AllQueueStart(term, step, base);
    } else {
      AllStep(term, base, n);
      AllQueueAtLevel(term, step, base, n - 1);
      AllQueueNextLevel(term, step, base, AllRows(term, base, n - 1), AllLevel(term, base, n - 1));
    }
  }

  /**
   UNION ALL: the queue run stops exactly when the level-by-level iteration does, and then it
   has emitted the same multiset of rows.
   */
  lemma AllSameBag<T(!new)>(term: seq<T> -> seq<T>, step: T -> seq<T>, base: seq<T>)
    requires SplitsAsBag(term, step)
    ensures AllLevelEnds(term, base) <==> AllQueueEnds(step, base)
    ensures forall n: nat, m: nat :: AllLevelStops(term, base, n) && AllQueueStops(step, base, m) ==>
              multiset(AllRows(term, base, n)) == multiset(AllQueue(step, base, m).out)
  {
    forall n: nat | AllLevelStops(term, base, n)
      ensures AllQueueStops(step, base, |AllRows(term, base, n)|)
    {
      AllLevelStopsQueue(term, step, base, n);
    }
    forall m: nat | AllQueueStops(step, base, m)
      ensures exists n: nat :: AllLevelStops(term, base, n)
    {
      AllQueueStopsLevel(term, step, base, m);
    }
    forall n: nat, m: nat | AllLevelStops(term, base, n) && AllQueueStops(step, base, m)
      ensures multiset(AllRows(term, base, n)) == multiset(AllQueue(step, base, m).out)
    {
      var k := |AllRows(term, base, n)|;
      AllLevelStopsQueue(term, step, base, n);
      AllQueueAtLevel(term, step, base, n);
      if m <= k { AllQueueStopped(step, base, m, k); } else { AllQueueStopped(step, base, k, m); }
    }
  }

  lemma AllLevelStopsQueue<T(!new)>(term: seq<T> -> seq<T>, step: T -> seq<T>, base: seq<T>, n: nat)
    requires SplitsAsBag(term, step) && AllLevelStops(term, base, n)
    ensures AllQueueStops(step, base, |AllRows(term, base, n)|)
  {
    AllQueueAtLevel(term, step, base, n);
  }

  lemma AllQueueStopsLevel<T(!new)>(term: seq<T> -> seq<T>, step: T -> seq<T>, base: seq<T>, m: nat)
    requires SplitsAsBag(term, step) && AllQueueStops(step, base, m)
    ensures exists n: nat :: AllLevelStops(term, base, n)
  {
    if forall n: nat :: !AllLevelStops(term, base, n) {
      AllQueueAtLevel(term, step, base, m + 1);
      AllRowsGrow(term, base, m + 1);
      AllQueueStopped(step, base, m, |AllRows(term, base, m + 1)|);
      AllQueueOut(step, base, m);
      assert false;
    }
  }

  lemma {:induction false} AllRowsGrow<T(!new)>(term: seq<T> -> seq<T>, base: seq<T>, n: nat)
    requires forall k: nat :: !AllLevelStops(term, base, k)
    ensures |AllRows(term, base, n)| >= n
    decreases n
  {
    if n > 0 {
      AllRowsGrow(term, base, n - 1);
      assert !AllLevelStops(term, base, n - 1);
    }
  }

  lemma {:induction false} AllQueueOut<T>(step: T -> seq<T>, init: seq<T>, m: nat)
    ensures |AllQueue(step, init, m).out| <= m
    decreases m
  {
    if m > 0 { AllQueueOut(step, init, m - 1); }
  }

  lemma {:induction false} AllQueueStopped<T>(step: T -> seq<T>, init: seq<T>, m: nat, k: nat)
    requires m <= k && AllQueueStops(step, init, m)
    ensures AllQueue(step, init, k) == AllQueue(step, init, m)
    decreases k
  {
    if m < k { AllQueueStopped(step, init, m, k - 1); }
  }
}

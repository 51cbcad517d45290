/**
 Multiplicities from set operations: INTERSECT ALL and EXCEPT ALL are run as INTERSECT and EXCEPT over numbered copies.
 With three or more inputs the numbers are stripped and given anew before each further operation.

 SQLite may number identical rows, and list rows, in any order, so a query denotes a relation
 between its inputs and its possible results.
 */
module BagSetOperation {
  import opened Sequences

  datatype Op = Intersect | Except

  /** SELECT ... FROM (numbered(left) op numbered(right)), tags dropped; or an input. */
  datatype Query = Branch(idx: nat) | Untag(op: Op, left: Numbered, right: Numbered)

  /** SELECT ..., ROW_NUMBER() OVER (PARTITION BY every column) FROM (query). */
  datatype Numbered = Numbered(query: Query)

  type Tagged<T> = (T, nat)

  // ----- the emitted query -----

  /** The fold over inputs 0..n. */
  function Fold(op: Op, n: nat): Query {
    if n == 0 then Branch(0) else Untag(op, Numbered(Fold(op, n - 1)), Numbered(Branch(n)))
  }

  method FormatBagSetOperation(op: Op, count: nat) returns (acc: Query)
    requires count > 0
    ensures acc == Fold(op, count - 1)
  {
    acc := Branch(0);
    var idx := 1;
    while idx < count
      invariant 1 <= idx <= count
      invariant acc == Fold(op, idx - 1)
    {
      acc := Untag(op, Numbered(acc), Numbered(Branch(idx)));
      idx := idx + 1;
    }
  }

  // ----- its possible results -----

  /** Copies of x among the first n rows. */
  function CountTo<T(==)>(rows: seq<T>, n: nat, x: T): nat
    requires n <= |rows|
  {
    if n == 0 then 0 else CountTo(rows, n - 1, x) + (if rows[n - 1] == x then 1 else 0)
  }

  function Count<T(==)>(rows: seq<T>, x: T): nat {
    CountTo(rows, |rows|, x)
  }

  /** ROW_NUMBER: copies of a row get the numbers 1 to the number of copies, in some order. */
  ghost predicate IsNumbering<T>(rows: seq<T>, tagged: seq<Tagged<T>>) {
    && Untagged(tagged) == rows
    && (forall i :: 0 <= i < |tagged| ==> 1 <= tagged[i].1 <= Count(rows, tagged[i].0))
    && NoRepeats(tagged)
  }

  predicate NoRepeats<T(==)>(s: seq<T>) {
    forall i, j :: 0 <= i < j < |s| ==> s[i] != s[j]
  }

  /** SQLite's INTERSECT and EXCEPT: a repetition-free list of the rows of the set operation. */
  ghost predicate SetOperation<T(!new)>(op: Op, left: seq<T>, right: seq<T>, out: seq<T>) {
    && NoRepeats(out)
    && forall x :: x in out <==> x in left && (if op == Intersect then x in right else x !in right)
  }

  function Untagged<T>(tagged: seq<Tagged<T>>): seq<T> {
    seq(|tagged|, i requires 0 <= i < |tagged| => tagged[i].0)
  }

  ghost predicate Evaluates<T(!new)>(q: Query, inputs: seq<seq<T>>, out: seq<T>)
    decreases q
  {
    match q
    case Branch(idx) => idx < |inputs| && multiset(out) == multiset(inputs[idx])
    case Untag(op, l, r) =>
      exists left, right, res ::
        && EvaluatesNumbered(l, inputs, left)
        && EvaluatesNumbered(r, inputs, right)
        && SetOperation(op, left, right, res)
        && out == Untagged(res)
  }

  ghost predicate EvaluatesNumbered<T(!new)>(n: Numbered, inputs: seq<seq<T>>, tagged: seq<Tagged<T>>)
    decreases n
  {
    exists rows :: Evaluates(n.query, inputs, rows) && IsNumbering(rows, tagged)
  }

  // ----- tags count copies -----

  lemma {:induction false} CountToBag<T>(rows: seq<T>, n: nat, x: T)
    requires n <= |rows|
    ensures CountTo(rows, n, x) == multiset(rows[..n])[x]
    decreases n
  {
    if n > 0 {
      CountToBag(rows, n - 1, x);
      assert rows[..n] == rows[..n - 1] + [rows[n - 1]];
    }
  }

  lemma CountBag<T>(rows: seq<T>, x: T)
    ensures Count(rows, x) == multiset(rows)[x]
  {
    CountToBag(rows, |rows|, x);
    assert rows[..|rows|] == rows;
  }

  /** The numbers given to the copies of x among the first n tagged rows. */
  ghost function Numbers<T>(tagged: seq<Tagged<T>>, n: nat, x: T): set<nat>
    requires n <= |tagged|
  {
    if n == 0 then {} else Numbers(tagged, n - 1, x) + (if tagged[n - 1].0 == x then {tagged[n - 1].1} else {})
  }

  lemma {:induction false} InNumbers<T>(tagged: seq<Tagged<T>>, n: nat, x: T, k: nat)
    requires n <= |tagged|
    ensures k in Numbers(tagged, n, x) <==> exists i :: 0 <= i < n && tagged[i] == (x, k)
    decreases n
  {
    if n > 0 { InNumbers(tagged, n - 1, x, k); }
  }

  lemma LastNumberIsNew<T>(tagged: seq<Tagged<T>>, n: nat, x: T)
    requires 0 < n <= |tagged| && NoRepeats(tagged) && tagged[n - 1].0 == x
    ensures tagged[n - 1].1 !in Numbers(tagged, n - 1, x)
  {
    InNumbers(tagged, n - 1, x, tagged[n - 1].1);
  }

  /** Distinct tags: there are as many numbers for x as there are copies of it. */
  lemma {:induction false} NumbersCount<T>(tagged: seq<Tagged<T>>, n: nat, x: T)
    requires n <= |tagged| && NoRepeats(tagged)
    ensures |Numbers(tagged, n, x)| == CountTo(Untagged(tagged), n, x)
    decreases n
  {
    hide NoRepeats;
    if n > 0 {
      NumbersCount(tagged, n - 1, x);
      if tagged[n - 1].0 == x { LastNumberIsNew(tagged, n, x); }
    }
  }

  ghost function UpTo(lo: nat, hi: nat): set<nat>
    decreases hi
  {
    if lo < hi then UpTo(lo, hi - 1) + {hi} else {}
  }

  lemma {:induction false} UpToSize(lo: nat, hi: nat)
    ensures forall k :: k in UpTo(lo, hi) <==> lo < k <= hi
    ensures |UpTo(lo, hi)| == if lo < hi then hi - lo else 0
    decreases hi
  {
    if lo < hi { UpToSize(lo, hi - 1); }
  }

  /** In any numbering the tags of the copies of x are exactly 1 to the number of copies. */
  lemma NumberingIsFull<T>(rows: seq<T>, tagged: seq<Tagged<T>>, x: T, k: nat)
    requires IsNumbering(rows, tagged)
    ensures (x, k) in tagged <==> 0 < k <= Count(rows, x)
  {
    var numbers, all := Numbers(tagged, |tagged|, x), UpTo(0, Count(rows, x));
    NumbersCount(tagged, |tagged|, x);
    UpToSize(0, Count(rows, x));
    forall n | n in numbers ensures n in all {
      InNumbers(tagged, |tagged|, x, n);
    }
    SubsetFull(numbers, all);
    InNumbers(tagged, |tagged|, x, k);
  }

  lemma SubsetFull<T>(a: set<T>, b: set<T>)
    requires a <= b && |a| == |b|
    ensures a == b
  {
    assert b == a + (b - a);
  }

  function Multiplicity(op: Op, a: nat, b: nat): nat {
    if op == Intersect then (if a < b then a else b) else (if a > b then a - b else 0)
  }

  /** One step, whatever the numberings and row orders: the multiplicity of every row. */
  lemma StepMultiplicity<T(!new)>(op: Op, ls: seq<T>, left: seq<Tagged<T>>, rs: seq<T>, right: seq<Tagged<T>>,
      res: seq<Tagged<T>>, x: T)
    requires IsNumbering(ls, left) && IsNumbering(rs, right) && SetOperation(op, left, right, res)
    ensures Count(Untagged(res), x) == Multiplicity(op, Count(ls, x), Count(rs, x))
  {
    var a, b := Count(ls, x), Count(rs, x);
    NumbersCount(res, |res|, x);
    var lo, hi := if op == Intersect then 0 else b, if op == Intersect && b < a then b else a;
    UpToSize(lo, hi);
    forall k ensures k in Numbers(res, |res|, x) <==> k in UpTo(lo, hi) {
      InNumbers(res, |res|, x, k);
      NumberingIsFull(ls, left, x, k);
      NumberingIsFull(rs, right, x, k);
      assert (x, k) in res <==> (x, k) in left && (if op == Intersect then (x, k) in right else (x, k) !in right);
    }
    assert Numbers(res, |res|, x) == UpTo(lo, hi);
  }

  // ----- the chain -----

  /** The smallest number of copies of x in inputs 0..n. */
  function MinCount<T(==)>(inputs: seq<seq<T>>, n: nat, x: T): nat
    requires n < |inputs|
  {
    if n == 0 then Count(inputs[0], x)
    else Multiplicity(Intersect, MinCount(inputs, n - 1, x), Count(inputs[n], x))
  }

  lemma {:induction false} MinCountIsMin<T>(inputs: seq<seq<T>>, n: nat, x: T)
    requires n < |inputs|
    ensures forall i :: 0 <= i <= n ==> MinCount(inputs, n, x) <= Count(inputs[i], x)
    ensures exists i :: 0 <= i <= n && MinCount(inputs, n, x) == Count(inputs[i], x)
    decreases n
  {
    if n > 0 {
      MinCountIsMin(inputs, n - 1, x);
      var i :| 0 <= i <= n - 1 && MinCount(inputs, n - 1, x) == Count(inputs[i], x);
      assert MinCount(inputs, n, x) == Count(inputs[i], x) || MinCount(inputs, n, x) == Count(inputs[n], x);
    }
  }

  /** The copies of x in inputs 1..n. */
  function SumCount<T(==)>(inputs: seq<seq<T>>, n: nat, x: T): nat
    requires n < |inputs|
  {
    if n == 0 then 0 else SumCount(inputs, n - 1, x) + Count(inputs[n], x)
  }

  /** Any evaluation of the fold takes one step from some evaluation of the shorter fold. */
  lemma FoldStep<T(!new)>(op: Op, n: nat, inputs: seq<seq<T>>, out: seq<T>, x: T) returns (ls: seq<T>)
    requires 0 < n < |inputs| && Evaluates(Fold(op, n), inputs, out)
    ensures Evaluates(Fold(op, n - 1), inputs, ls)
    ensures Count(out, x) == Multiplicity(op, Count(ls, x), Count(inputs[n], x))
  {
    var l, r := Numbered(Fold(op, n - 1)), Numbered(Branch(n));
    assert Fold(op, n) == Untag(op, l, r);
    var left: seq<Tagged<T>>, right: seq<Tagged<T>>, res: seq<Tagged<T>> :|
      && EvaluatesNumbered(l, inputs, left)
      && EvaluatesNumbered(r, inputs, right)
      && SetOperation(op, left, right, res)
      && out == Untagged(res);
    ls :| Evaluates(l.query, inputs, ls) && IsNumbering(ls, left);
    var rs :| Evaluates(r.query, inputs, rs) && IsNumbering(rs, right);
    CountBag(rs, x);
    CountBag(inputs[n], x);
    hide IsNumbering, SetOperation, Count;
    StepMultiplicity(op, ls, left, rs, right, res, x);
  }

  lemma {:induction false} FoldMultiplicity<T(!new)>(op: Op, n: nat, inputs: seq<seq<T>>, out: seq<T>, x: T)
    requires n < |inputs| && Evaluates(Fold(op, n), inputs, out)
    ensures Count(out, x) ==
              if op == Intersect then MinCount(inputs, n, x)
              else Multiplicity(Except, Count(inputs[0], x), SumCount(inputs, n, x))
    decreases n
  {
    if n == 0 {
      CountBag(out, x);
      CountBag(inputs[0], x);
    } else {
      var ls := FoldStep(op, n, inputs, out, x);
      FoldMultiplicity(op, n - 1, inputs, ls, x);
    }
  }

  /** INTERSECT ALL: every row occurs as often as in the input where it is rarest. */
  lemma IntersectAllIsMin<T(!new)>(inputs: seq<seq<T>>, out: seq<T>, x: T)
    requires inputs != [] && Evaluates(Fold(Intersect, |inputs| - 1), inputs, out)
    ensures forall i :: 0 <= i < |inputs| ==> multiset(out)[x] <= multiset(inputs[i])[x]
    ensures exists i :: 0 <= i < |inputs| && multiset(out)[x] == multiset(inputs[i])[x]
  {
    var n := |inputs| - 1;
    FoldMultiplicity(Intersect, n, inputs, out, x);
    MinCountIsMin(inputs, n, x);
    CountBag(out, x);
    forall i | 0 <= i < |inputs| ensures Count(inputs[i], x) == multiset(inputs[i])[x] {
      CountBag(inputs[i], x);
    }
    hide *;
  }

  /** EXCEPT ALL: every row occurs as often as in the first input, less its copies in the others. */
  lemma ExceptAllIsDifference<T(!new)>(inputs: seq<seq<T>>, out: seq<T>, x: T)
    requires inputs != [] && Evaluates(Fold(Except, |inputs| - 1), inputs, out)
    ensures var others := SumCount(inputs, |inputs| - 1, x);
            multiset(out)[x] == if multiset(inputs[0])[x] > others then multiset(inputs[0])[x] - others else 0
  {
    FoldMultiplicity(Except, |inputs| - 1, inputs, out, x);
    CountBag(out, x);
    CountBag(inputs[0], x);
  }

  // ----- every query has a result -----

  /** Numbering copies in list order. */
  function Number<T(==)>(rows: seq<T>): seq<Tagged<T>> {
    seq(|rows|, i requires 0 <= i < |rows| => (rows[i], CountTo(rows, i + 1, rows[i])))
  }

  lemma {:induction false} CountGrows<T>(rows: seq<T>, i: nat, j: nat, x: T)
    requires i <= j <= |rows|
    ensures CountTo(rows, i, x) <= CountTo(rows, j, x)
    decreases j
  {
    if i < j { CountGrows(rows, i, j - 1, x); }
  }

  lemma NumberIsNumbering<T>(rows: seq<T>)
    ensures IsNumbering(rows, Number(rows))
  {
    var tagged := Number(rows);
    forall i | 0 <= i < |rows| ensures 1 <= tagged[i].1 <= Count(rows, rows[i]) {
      CountGrows(rows, i + 1, |rows|, rows[i]);
    }
    forall i, j | 0 <= i < j < |rows| ensures tagged[i] != tagged[j] {
      CountGrows(rows, i + 1, j, rows[i]);
    }
  }

  function Select<T(==)>(op: Op, left: seq<T>, right: seq<T>): seq<T> {
    if left == [] then []
    else
      var n := |left| - 1;
      Select(op, left[..n], right) + (if (left[n] in right) == (op == Intersect) then [left[n]] else [])
  }

  lemma {:induction false} SelectIsSetOperation<T(!new)>(op: Op, left: seq<T>, right: seq<T>)
    requires NoRepeats(left)
    ensures SetOperation(op, left, right, Select(op, left, right))
    decreases |left|
  {
    if left != [] {
      var n := |left| - 1;
      SelectIsSetOperation(op, left[..n], right);
      assert left == left[..n] + [left[n]];
    }
  }

  function Run<T(==)>(q: Query, inputs: seq<seq<T>>): seq<T> {
    match q
    case Branch(idx) => if idx < |inputs| then inputs[idx] else []
    case Untag(op, l, r) => Untagged(Select(op, Number(Run(l.query, inputs)), Number(Run(r.query, inputs))))
  }

  predicate Covers(q: Query, n: nat) {
    match q
    case Branch(idx) => idx < n
    case Untag(_, l, r) => Covers(l.query, n) && Covers(r.query, n)
  }

  /** Numbering in list order is one possible evaluation, so results exist for every input. */
  lemma {:induction false} RunEvaluates<T(!new)>(q: Query, inputs: seq<seq<T>>)
    requires Covers(q, |inputs|)
    ensures Evaluates(q, inputs, Run(q, inputs))
    decreases q
  {
    match q
    case Branch(_) =>
    case Untag(op, l, r) =>
      var ls, rs := Run(l.query, inputs), Run(r.query, inputs);
      RunEvaluates(l.query, inputs);
      RunEvaluates(r.query, inputs);
      NumberIsNumbering(ls);
      NumberIsNumbering(rs);
      var left, right := Number(ls), Number(rs);
      assert EvaluatesNumbered(l, inputs, left) && EvaluatesNumbered(r, inputs, right);
      SelectIsSetOperation(op, left, right);
  }
}

/**
 Long UNION and UNION ALL chains: SQLite plans a compound one stack frame per arm, so a chain is
 regrouped into a tree of compounds of at most 64 arms.
 */
module CompoundSelect {
  import opened Arithmetic
  import opened Sequences

  const MAX_COMPOUND_ARMS := 64

  datatype Op = UnionAll | Union | Intersect | Except

  /** An arm of the original chain, or SELECT * FROM (a compound of the arms). */
  datatype Query = Arm(i: nat) | Group(arms: seq<Query>)

  predicate Regroupable(op: Op) {
    op == UnionAll || op == Union
  }

  // ----- shape -----

  /** The original arms below a list of queries, left to right. */
  function Leaves(qs: seq<Query>): seq<nat>
    decreases qs
  {
    if qs == [] then []
    else Leaves(qs[..|qs| - 1]) + (match qs[|qs| - 1] case Arm(i) => [i] case Group(arms) => Leaves(arms))
  }

  /** Every compound has at least one and at most MAX_COMPOUND_ARMS arms, and every arm sits under d groups. */
  predicate Level(q: Query, d: nat) {
    match q
    case Arm(_) => d == 0
    case Group(arms) =>
      d > 0 && 1 <= |arms| <= MAX_COMPOUND_ARMS && forall i :: 0 <= i < |arms| ==> Level(arms[i], d - 1)
  }

  /** The query reached by going from arm to arm. */
  function Below(q: Query, path: seq<nat>): Option<Query>
    decreases |path|
  {
    if path == [] then Some(q)
    else if q.Group? && path[0] < |q.arms| then Below(q.arms[path[0]], path[1..])
    else None
  }

  /** Everywhere in the tree a compound has 1 to 64 arms, and an arm of the chain is under d compounds. */
  lemma {:induction false} LevelEverywhere(q: Query, d: nat, path: seq<nat>)
    requires Level(q, d) && Below(q, path).Some?
    ensures Below(q, path).value.Group? ==> 1 <= |Below(q, path).value.arms| <= 64 && |path| < d
    ensures Below(q, path).value.Arm? ==> |path| == d
    decreases |path|
  {
    if path != [] { LevelEverywhere(q.arms[path[0]], d - 1, path[1..]); }
  }

  predicate AllLevel(qs: seq<Query>, d: nat) {
    forall i :: 0 <= i < |qs| ==> Level(qs[i], d)
  }

  function Pow64(d: nat): nat {
    if d == 0 then 1 else 64 * Pow64(d - 1)
  }

  /** |qs| is the number of groups that n arms need after d rounds. */
  predicate Rounds(n: nat, d: nat, groups: nat) {
    n <= Pow64(d) * groups && (groups > 0 ==> Pow64(d) * (groups - 1) < n)
  }

  lemma RoundsStep(n: nat, d: nat, groups: nat, next: nat)
    requires Rounds(n, d, groups) && groups > 0 && 64 * (next - 1) < groups <= 64 * next
    ensures Rounds(n, d + 1, next)
  {
    var p := Pow64(d);
    assert Pow64(d + 1) == 64 * p;
    hide Pow64;
    MulLe(groups, 64 * next, p);
    Associate(64, next, p);
    if next > 0 {
      MulLe(64 * (next - 1), groups - 1, p);
      Associate(64, next - 1, p);
    }
  }

  lemma RoundsLong(n: nat, d: nat, groups: nat)
    requires Rounds(n, d, groups) && groups > 64
    ensures Pow64(d + 1) < n
  {
    assert Pow64(d + 1) == 64 * Pow64(d);
    hide Pow64;
    MulLe(64, groups - 1, Pow64(d));
  }

  function LeavesOf(q: Query): seq<nat> {
    match q case Arm(i) => [i] case Group(arms) => Leaves(arms)
  }

  lemma LeavesSnoc(qs: seq<Query>, q: Query)
    ensures Leaves(qs + [q]) == Leaves(qs) + LeavesOf(q)
  {
    assert (qs + [q])[..|qs|] == qs;
  }

  lemma {:induction false} LeavesConcat(a: seq<Query>, b: seq<Query>)
    ensures Leaves(a + b) == Leaves(a) + Leaves(b)
    decreases |b|
  {
    hide Leaves, LeavesOf;
    if b == [] {
      LeavesNone();
      assert a + b == a;
    } else {
      var init, last := b[..|b| - 1], b[|b| - 1];
      LeavesConcat(a, init);
      LeavesSnoc(a + init, last);
      LeavesSnoc(init, last);
      assert b == init + [last] && a + b == a + init + [last];
    }
  }

  lemma LeavesNone()
    ensures Leaves([]) == []
  {}

  /** Closing one more group over the arms from i up to `end`. */
  lemma GroupOne(queries: seq<Query>, d: nat, grouped: seq<Query>, i: nat, end: nat)
    requires i < end <= |queries| && end - i <= MAX_COMPOUND_ARMS
    requires AllLevel(queries, d) && AllLevel(grouped, d + 1) && Leaves(grouped) == Leaves(queries[..i])
    ensures AllLevel(grouped + [Group(queries[i..end])], d + 1)
    ensures Leaves(grouped + [Group(queries[i..end])]) == Leaves(queries[..end])
  {
    hide Leaves, Level;
    var group := Group(queries[i..end]);
    GroupLevel(queries, d, i, end);
    LeavesSnoc(grouped, group);
    LeavesConcat(queries[..i], queries[i..end]);
    assert queries[..i] + queries[i..end] == queries[..end];
  }

  lemma GroupLevel(queries: seq<Query>, d: nat, i: nat, end: nat)
    requires i < end <= |queries| && end - i <= MAX_COMPOUND_ARMS && AllLevel(queries, d)
    ensures Level(Group(queries[i..end]), d + 1)
  {
    assert forall k :: 0 <= k < end - i ==> queries[i..end][k] == queries[i + k];
  }

  /** The inner loop: one round of grouping. */
  method GroupArms(queries: seq<Query>, ghost d: nat) returns (grouped: seq<Query>)
    requires AllLevel(queries, d)
    ensures AllLevel(grouped, d + 1)
    ensures Leaves(grouped) == Leaves(queries)
    ensures 64 * (|grouped| - 1) < |queries| <= 64 * |grouped| || queries == grouped == []
  {
    grouped := [];
    var i := 0;
    ghost var done := 0;
    while i < |queries|
      invariant 0 <= done <= |queries| && done == if i < |queries| then i else |queries|
      invariant AllLevel(grouped, d + 1)
      invariant Leaves(grouped) == Leaves(queries[..done])
      invariant i == MAX_COMPOUND_ARMS * |grouped|
      invariant i - MAX_COMPOUND_ARMS < |queries|
    {
      hide Level, Leaves, AllLevel;
      var end := if i + MAX_COMPOUND_ARMS < |queries| then i + MAX_COMPOUND_ARMS else |queries|;
      GroupOne(queries, d, grouped, i, end);
      grouped := grouped + [Group(queries[i..end])];
      i := i + MAX_COMPOUND_ARMS;
      done := end;
    }
    assert queries[..|queries|] == queries;
  }

  /**
   Chains of at most 64 arms, and every chain of another operator, are left alone. A longer one
   becomes a compound of at most 64 arms that nests to the smallest depth d that 64-ary compounds
   allow: 64^d < arms <= 64^(d+1).
   */
  method JoinCompoundSelect(count: nat, op: Op) returns (compound: seq<Query>, ghost depth: nat)
    ensures Leaves(compound) == Numbered(count)
    ensures AllLevel(compound, depth)
    ensures op == Intersect || op == Except ==> depth == 0 && |compound| == count
    ensures op == UnionAll || op == Union ==>
              && |compound| <= 64
              && count <= Pow64(depth + 1)
              && (depth > 0 ==> Pow64(depth) < count)
  {
    compound := seq(count, i requires 0 <= i < count => Arm(i));
    depth := 0;
    FlatArms(count);
    hide *;
    if !Regroupable(op) {
      JoinedDone(compound, depth, count);
      return;
    }
    while |compound| > 64
      invariant Joined(compound, depth, count)
      decreases |compound|
    {
      JoinedStep(compound, depth, count);
      var grouped := GroupArms(compound, depth);
      GroupedJoined(compound, grouped, depth, count);
      compound := grouped;
      depth := depth + 1;
    }
    JoinedDone(compound, depth, count);
  }

  function Numbered(n: nat): seq<nat> { seq(n, i requires 0 <= i < n => i) }

  /** The arms in order under d rounds of grouping, each of which was needed. */
  ghost predicate Joined(compound: seq<Query>, d: nat, count: nat) {
    && AllLevel(compound, d) && Leaves(compound) == Numbered(count) && Rounds(count, d, |compound|)
    && (d > 0 ==> Pow64(d) < count)
  }

  lemma FlatArms(count: nat)
    ensures Joined(seq(count, i requires 0 <= i < count => Arm(i)), 0, count)
  {
    FlatLeaves(count);
  }

  lemma JoinedStep(compound: seq<Query>, d: nat, count: nat)
    requires Joined(compound, d, count)
    ensures AllLevel(compound, d) && MAX_COMPOUND_ARMS == 64
  {}

  lemma GroupedJoined(compound: seq<Query>, grouped: seq<Query>, d: nat, count: nat)
    requires Joined(compound, d, count) && |compound| > 64
    requires AllLevel(grouped, d + 1) && Leaves(grouped) == Leaves(compound)
    requires 64 * (|grouped| - 1) < |compound| <= 64 * |grouped| || compound == grouped == []
    ensures Joined(grouped, d + 1, count) && |grouped| < |compound|
  {
    hide AllLevel, Leaves, Rounds, Pow64;
    RoundsStep(count, d, |compound|, |grouped|);
    RoundsLong(count, d, |compound|);
  }

  lemma JoinedDone(compound: seq<Query>, d: nat, count: nat)
    requires Joined(compound, d, count)
    ensures AllLevel(compound, d) && Leaves(compound) == Numbered(count) && (d > 0 ==> Pow64(d) < count)
    ensures |compound| <= 64 ==> |compound| <= MAX_COMPOUND_ARMS && count <= Pow64(d + 1)
  {
    if |compound| <= 64 { FewRounds(count, d, |compound|); }
  }

  lemma FewRounds(n: nat, d: nat, groups: nat)
    requires Rounds(n, d, groups) && groups <= 64
    ensures n <= Pow64(d + 1)
  {
    assert Pow64(d + 1) == 64 * Pow64(d);
    hide Pow64;
    MulLe(groups, 64, Pow64(d));
  }

  lemma {:induction false} FlatLeaves(n: nat)
    ensures Leaves(seq(n, i requires 0 <= i < n => Arm(i))) == Numbered(n)
  {
    if n > 0 {
      FlatLeaves(n - 1);
      var arms := seq(n, i requires 0 <= i < n => Arm(i));
      assert arms[..n - 1] == seq(n - 1, i requires 0 <= i < n - 1 => Arm(i));
    }
  }

  // ----- meaning -----

  /** UNION ALL: the bag sum of the arms. */
  function Bag<T(==)>(qs: seq<Query>, inputs: nat -> multiset<T>): multiset<T>
    decreases qs
  {
    if qs == [] then multiset{}
    else
      Bag(qs[..|qs| - 1], inputs)
      + (match qs[|qs| - 1] case Arm(i) => inputs(i) case Group(arms) => Bag(arms, inputs))
  }

  /** UNION: the set of the rows of the arms; an inner UNION has removed duplicates already. */
  function Set<T(==)>(qs: seq<Query>, inputs: nat -> set<T>): set<T>
    decreases qs
  {
    if qs == [] then {}
    else
      Set(qs[..|qs| - 1], inputs)
      + (match qs[|qs| - 1] case Arm(i) => inputs(i) case Group(arms) => Set(arms, inputs))
  }

  function BagOfArms<T(==)>(arms: seq<nat>, inputs: nat -> multiset<T>): multiset<T> {
    if arms == [] then multiset{} else BagOfArms(arms[..|arms| - 1], inputs) + inputs(arms[|arms| - 1])
  }

  function SetOfArms<T(==)>(arms: seq<nat>, inputs: nat -> set<T>): set<T> {
    if arms == [] then {} else SetOfArms(arms[..|arms| - 1], inputs) + inputs(arms[|arms| - 1])
  }

  lemma {:induction false} ArmsConcat<T>(a: seq<nat>, b: seq<nat>, bags: nat -> multiset<T>, sets: nat -> set<T>)
    ensures BagOfArms(a + b, bags) == BagOfArms(a, bags) + BagOfArms(b, bags)
    ensures SetOfArms(a + b, sets) == SetOfArms(a, sets) + SetOfArms(b, sets)
    decreases |b|
  {
    if b == [] {
      assert a + b == a;
    } else {
      var n := |b| - 1;
      ArmsConcat(a, b[..n], bags, sets);
      assert (a + b)[..|a + b| - 1] == a + b[..n];
    }
  }

  /** A tree of compounds means what the flat chain of its arms means, as a bag and as a set. */
  lemma {:induction false} TreeIsChain<T>(qs: seq<Query>, bags: nat -> multiset<T>, sets: nat -> set<T>)
    ensures Bag(qs, bags) == BagOfArms(Leaves(qs), bags)
    ensures Set(qs, sets) == SetOfArms(Leaves(qs), sets)
    decreases qs
  {
    if qs != [] {
      var n := |qs| - 1;
      TreeIsChain(qs[..n], bags, sets);
      match qs[n]
      case Arm(i) =>
        ArmsConcat(Leaves(qs[..n]), [i], bags, sets);
        OneArm(i, bags, sets);
      case Group(arms) =>
        TreeIsChain(arms, bags, sets);
        ArmsConcat(Leaves(qs[..n]), Leaves(arms), bags, sets);
    }
  }

  lemma OneArm<T>(i: nat, bags: nat -> multiset<T>, sets: nat -> set<T>)
    ensures BagOfArms([i], bags) == bags(i) && SetOfArms([i], sets) == sets(i)
  {
    assert [i][..0] == [];
  }
}

/**
 The budget that decides which CTEs of a WITH clause SQLite may inline: an entry is materialized
 when inlining it at all its references would copy more than 4 MiB of SQL.
 */
module CteInlineCost {

  const BUDGET: nat := 0x40_0000

  type Name = string

  // ----- sums over the keys of a map, in no particular order -----

  ghost function SumOver(f: Name -> nat, keys: set<Name>): nat {
    if keys == {} then 0
    else
      var k :| k in keys;
      f(k) + SumOver(f, keys - {k})
  }

  /** Any key may be taken first. */
  lemma {:induction false} SumTakes(f: Name -> nat, keys: set<Name>, k: Name)
    requires k in keys
    ensures SumOver(f, keys) == f(k) + SumOver(f, keys - {k})
    decreases keys
  {
    var first :| first in keys && SumOver(f, keys) == f(first) + SumOver(f, keys - {first});
    if first != k {
      SumTakes(f, keys - {first}, k);
      SumTakes(f, keys - {k}, first);
      assert keys - {first} - {k} == keys - {k} - {first};
    }
  }

  lemma SumHolds(f: Name -> nat, keys: set<Name>, k: Name)
    requires k in keys
    ensures f(k) <= SumOver(f, keys)
  {
    SumTakes(f, keys, k);
  }

  // ----- costs -----

  type Counts = map<Name, nat>

  function RefsOf(refsIn: map<Name, Counts>, consumer: Name): Counts {
    if consumer in refsIn then refsIn[consumer] else map[]
  }

  /** The copies of an inlined dependency that one consumer pulls in. */
  function CopyTerm(refs: Counts, expanded: map<Name, nat>): Name -> nat {
    (dep: Name) => if dep in refs && dep in expanded then expanded[dep] * refs[dep] else 0
  }

  function RefTerm(refsIn: map<Name, Counts>, name: Name): Name -> nat {
    (consumer: Name) => if name in RefsOf(refsIn, consumer) then RefsOf(refsIn, consumer)[name] else 0
  }

  /** The size of an entry with the copies of the inlined entries it reads. */
  ghost function ExpandedSize(refsIn: map<Name, Counts>, expanded: map<Name, nat>, name: Name, bodyLen: nat): nat {
    var refs := RefsOf(refsIn, name);
    bodyLen + SumOver(CopyTerm(refs, expanded), refs.Keys)
  }

  ghost function TotalRefs(refsIn: map<Name, Counts>, name: Name): nat {
    SumOver(RefTerm(refsIn, name), refsIn.Keys)
  }

  // ----- sizes by single references -----

  /** What the references of a body pull in, one by one: an inlined entry its size, another nothing. */
  function Copied(occurrences: seq<Name>, expanded: map<Name, nat>): nat {
    if occurrences == [] then 0
    else
      var n := |occurrences| - 1;
      Copied(occurrences[..n], expanded) + if occurrences[n] in expanded then expanded[occurrences[n]] else 0
  }

  /** The counts are those of the references. */
  ghost predicate Counted(refs: Counts, occurrences: seq<Name>) {
    && (forall name :: name in refs ==> refs[name] == multiset(occurrences)[name])
    && (forall name :: name in occurrences ==> name in refs)
  }

  lemma {:induction false} SumZero(f: Name -> nat, keys: set<Name>)
    requires forall k :: k in keys ==> f(k) == 0
    ensures SumOver(f, keys) == 0
    decreases keys
  {
    if keys != {} {
      var k :| k in keys;
      SumTakes(f, keys, k);
      SumZero(f, keys - {k});
    }
  }

  lemma {:induction false} SumSame(f: Name -> nat, g: Name -> nat, keys: set<Name>)
    requires forall k :: k in keys ==> f(k) == g(k)
    ensures SumOver(f, keys) == SumOver(g, keys)
    decreases keys
  {
    if keys != {} {
      var k :| k in keys;
      SumTakes(f, keys, k);
      SumTakes(g, keys, k);
      SumSame(f, g, keys - {k});
    }
  }

  lemma OneMore(refs: Counts, expanded: map<Name, nat>, x: Name)
    requires x in refs && refs[x] > 0
    ensures SumOver(CopyTerm(refs, expanded), refs.Keys)
      == SumOver(CopyTerm(refs[x := refs[x] - 1], expanded), refs.Keys) + if x in expanded then expanded[x] else 0
  {
    var less := refs[x := refs[x] - 1];
    var f, g := CopyTerm(refs, expanded), CopyTerm(less, expanded);
    SumTakes(f, refs.Keys, x);
    SumTakes(g, refs.Keys, x);
    SumSame(f, g, refs.Keys - {x});
    if x in expanded { assert expanded[x] * refs[x] == expanded[x] * (refs[x] - 1) + expanded[x]; }
  }

  /** Sizes times counts are the sizes of the references, summed one by one. */
  lemma {:induction false} CopiesAre(refs: Counts, expanded: map<Name, nat>, occurrences: seq<Name>)
    requires Counted(refs, occurrences)
    ensures SumOver(CopyTerm(refs, expanded), refs.Keys) == Copied(occurrences, expanded)
    decreases |occurrences|
  {
    if occurrences == [] {
      SumZero(CopyTerm(refs, expanded), refs.Keys);
    } else {
      var n := |occurrences| - 1;
      var x, init := occurrences[n], occurrences[..n];
      assert occurrences == init + [x];
      assert x in multiset(occurrences);
      var less := refs[x := refs[x] - 1];
      assert less.Keys == refs.Keys;
      CopiesAre(less, expanded, init);
      OneMore(refs, expanded, x);
    }
  }

  /** An entry is as long as its body with every reference to an inlined entry replaced by that entry. */
  lemma ExpandedIs(refsIn: map<Name, Counts>, expanded: map<Name, nat>, name: Name, bodyLen: nat,
      occurrences: seq<Name>)
    requires Counted(RefsOf(refsIn, name), occurrences)
    ensures ExpandedSize(refsIn, expanded, name, bodyLen) == bodyLen + Copied(occurrences, expanded)
  {
    CopiesAre(RefsOf(refsIn, name), expanded, occurrences);
  }

  /** The references to an entry in the bodies of all consumers. */
  ghost function AllReferences(bodies: map<Name, seq<Name>>, consumers: set<Name>, name: Name): nat {
    SumOver((consumer: Name) => if consumer in bodies then multiset(bodies[consumer])[name] else 0, consumers)
  }

  lemma TotalIs(refsIn: map<Name, Counts>, bodies: map<Name, seq<Name>>, name: Name)
    requires forall consumer :: consumer in refsIn ==>
      consumer in bodies && Counted(refsIn[consumer], bodies[consumer])
    ensures TotalRefs(refsIn, name) == AllReferences(bodies, refsIn.Keys, name)
  {
    var g := (consumer: Name) => if consumer in bodies then multiset(bodies[consumer])[name] else 0;
    forall consumer | consumer in refsIn.Keys ensures RefTerm(refsIn, name)(consumer) == g(consumer) {
      assert name in bodies[consumer] <==> name in multiset(bodies[consumer]);
    }
    SumSame(RefTerm(refsIn, name), g, refsIn.Keys);
  }

  /** The budget is 4 MiB. */
  lemma BudgetIs()
    ensures BUDGET == 4 * 1024 * 1024
  {}

  /** An entry that reads others must fit the budget itself, and a referenced one at all its references. */
  ghost predicate TooCostly(refsIn: map<Name, Counts>, expanded: map<Name, nat>, name: Name, bodyLen: nat) {
    var size := ExpandedSize(refsIn, expanded, name, bodyLen);
    (RefsOf(refsIn, name) != map[] && size > BUDGET) || size * TotalRefs(refsIn, name) > BUDGET
  }

  /**
   An entry is materialized exactly when it, expanded reference by reference, is longer than the budget at all the
   references to it together, or by itself if it reads others.
   */
  lemma CostlyIff(refsIn: map<Name, Counts>, expanded: map<Name, nat>, name: Name, bodyLen: nat,
      bodies: map<Name, seq<Name>>, occurrences: seq<Name>)
    requires Counted(RefsOf(refsIn, name), occurrences)
    requires forall consumer :: consumer in refsIn ==>
      consumer in bodies && Counted(refsIn[consumer], bodies[consumer])
    ensures var size := bodyLen + Copied(occurrences, expanded);
      TooCostly(refsIn, expanded, name, bodyLen) <==>
        || size * AllReferences(bodies, refsIn.Keys, name) > 4 * 1024 * 1024
        || (name in refsIn && refsIn[name] != map[] && size > 4 * 1024 * 1024)
  {
    TooCostlyOf(refsIn, expanded, name, bodyLen);
    hide *;
    ExpandedIs(refsIn, expanded, name, bodyLen, occurrences);
    TotalIs(refsIn, bodies, name);
  }

  lemma TooCostlyOf(refsIn: map<Name, Counts>, expanded: map<Name, nat>, name: Name, bodyLen: nat)
    ensures var size := ExpandedSize(refsIn, expanded, name, bodyLen);
      TooCostly(refsIn, expanded, name, bodyLen) <==>
        || size * TotalRefs(refsIn, name) > 4 * 1024 * 1024
        || (name in refsIn && refsIn[name] != map[] && size > 4 * 1024 * 1024)
  {
    BudgetIs();
    hide ExpandedSize, TotalRefs;
  }

  /** Every inlined entry fits the budget at all its references. */
  ghost predicate WithinBudget(refsIn: map<Name, Counts>, expanded: map<Name, nat>) {
    forall name :: name in expanded ==> expanded[name] * TotalRefs(refsIn, name) <= BUDGET
  }

  /** Hence no product the estimate computes exceeds the budget. */
  lemma ProductWithinBudget(refsIn: map<Name, Counts>, expanded: map<Name, nat>, consumer: Name, dep: Name)
    requires WithinBudget(refsIn, expanded)
    ensures CopyTerm(RefsOf(refsIn, consumer), expanded)(dep) <= BUDGET
  {
    var refs := RefsOf(refsIn, consumer);
    if dep in refs && dep in expanded {
      SumHolds(RefTerm(refsIn, dep), refsIn.Keys, consumer);
      MulMonotone(expanded[dep], refs[dep], TotalRefs(refsIn, dep));
    }
  }

  lemma MulMonotone(x: nat, a: nat, b: nat)
    requires a <= b
    ensures x * a <= x * b
  {}

  /** Dividing the budget, as the code does, is the same test as multiplying the size. */
  lemma DivideOrMultiply(size: nat, refs: nat)
    requires refs > 0
    ensures size > BUDGET / refs <==> size * refs > BUDGET
  {
    var q := BUDGET / refs;
    assert q * refs <= BUDGET < (q + 1) * refs;
    if size > q { MulMonotone(refs, q + 1, size); } else { MulMonotone(refs, size, q); }
  }

  /**
   The loop over the entry's dependencies, in an unspecified order, with its early exit. No
   intermediate value exceeds the larger of body and budget by more than the budget.
   */
  method MeasureEntry(refsIn: map<Name, Counts>, expanded: map<Name, nat>, name: Name,
      bodyLen: nat) returns (size: nat, over: bool)
    requires WithinBudget(refsIn, expanded)
    ensures over == (RefsOf(refsIn, name) != map[] && ExpandedSize(refsIn, expanded, name, bodyLen) > BUDGET)
    ensures !over ==> size == ExpandedSize(refsIn, expanded, name, bodyLen)
    ensures size <= (if bodyLen > BUDGET then bodyLen else BUDGET) + BUDGET
  {
    var refs := RefsOf(refsIn, name);
    size := bodyLen;
    var deps := refs.Keys;
    while deps != {}
      invariant deps <= refs.Keys
      invariant size + SumOver(CopyTerm(refs, expanded), deps) == ExpandedSize(refsIn, expanded, name, bodyLen)
      invariant size <= BUDGET || (size == bodyLen && deps == refs.Keys)
      decreases deps
    {
      hide SumOver, ExpandedSize, WithinBudget, TotalRefs;
      var dep :| dep in deps;
      SumTakes(CopyTerm(refs, expanded), deps, dep);
      ProductWithinBudget(refsIn, expanded, name, dep);
      if dep in expanded { size := size + expanded[dep] * refs[dep]; }
      deps := deps - {dep};
      if size > BUDGET { return size, true; }
    }
    assert SumOver(CopyTerm(refs, expanded), {}) == 0;
    return size, false;
  }

  /** The loop over the consumers. */
  method CountRefs(refsIn: map<Name, Counts>, name: Name) returns (total: nat)
    ensures total == TotalRefs(refsIn, name)
  {
    total := 0;
    var consumers := refsIn.Keys;
    while consumers != {}
      invariant consumers <= refsIn.Keys
      invariant total + SumOver(RefTerm(refsIn, name), consumers) == TotalRefs(refsIn, name)
      decreases consumers
    {
      hide SumOver, TotalRefs;
      var consumer :| consumer in consumers;
      SumTakes(RefTerm(refsIn, name), consumers, consumer);
      if name in refsIn[consumer] { total := total + refsIn[consumer][name]; }
      consumers := consumers - {consumer};
    }
    assert SumOver(RefTerm(refsIn, name), {}) == 0;
  }

  class InlineCost {
    const refsIn: map<Name, Counts>
    var expanded: map<Name, nat>

    ghost predicate Valid()
      reads this
    {
      WithinBudget(refsIn, expanded)
    }

    constructor (refsIn: map<Name, Counts>)
      ensures Valid() && this.refsIn == refsIn && expanded == map[]
    {
      this.refsIn := refsIn;
      expanded := map[];
    }

    /** The decision and the recorded size are functions of the tables, whatever the iteration order. */
    method Materialize(name: Name, bodyLen: nat) returns (r: bool)
      requires Valid()
      modifies this
      ensures Valid()
      ensures r == TooCostly(refsIn, old(expanded), name, bodyLen)
      ensures expanded == if r then old(expanded)
                          else old(expanded)[name := ExpandedSize(refsIn, old(expanded), name, bodyLen)]
    {
      var size, over := MeasureEntry(refsIn, expanded, name, bodyLen);
      if over { return true; }
      var refs := CountRefs(refsIn, name);
      hide ExpandedSize, TotalRefs, RefsOf;
      if refs > 0 {
        DivideOrMultiply(size, refs);
        if size > BUDGET / refs { return true; }
      }
      expanded := expanded[name := size];
      return false;
    }

    /** The entries of a WITH clause, decided in WITH order. */
    method DecideAll(entries: seq<(Name, nat)>) returns (materialized: seq<bool>)
      requires Valid() && expanded == map[] && DistinctNames(entries)
      modifies this
      ensures forall i :: 0 <= i < |entries| ==> Decided(refsIn, entries, expanded, materialized, i)
    {
      materialized := [];
      var k := 0;
      while k < |entries|
        invariant k <= |entries| && |materialized| == k && Valid()
        invariant forall name :: name in expanded ==> Listed(name, entries, k)
        invariant forall i :: 0 <= i < k ==> Decided(refsIn, entries, expanded, materialized, i)
      {
        hide TooCostly, ExpandedSize, TotalRefs, Decided, Listed, Among;
        ghost var before := expanded;
        var r := Materialize(entries[k].0, entries[k].1);
        DecideOne(refsIn, entries, before, expanded, materialized, r, k);
        materialized := materialized + [r];
        k := k + 1;
      }
    }
  }

  // ----- decisions in WITH order -----

  predicate DistinctNames(entries: seq<(Name, nat)>) {
    forall a, b :: 0 <= a < b < |entries| ==> entries[a].0 != entries[b].0
  }

  predicate Listed(name: Name, entries: seq<(Name, nat)>, k: nat)
    requires k <= |entries|
  {
    exists i :: 0 <= i < k && entries[i].0 == name
  }

  lemma ListedLater(name: Name, entries: seq<(Name, nat)>, k: nat)
    requires k < |entries| && Listed(name, entries, k)
    ensures Listed(name, entries, k + 1)
  {}

  /** The inlined entries among the first k. */
  function Among(expanded: map<Name, nat>, entries: seq<(Name, nat)>, k: nat): map<Name, nat>
    requires k <= |entries|
  {
    map name | name in expanded && Listed(name, entries, k) :: expanded[name]
  }

  lemma AmongAll(expanded: map<Name, nat>, entries: seq<(Name, nat)>, k: nat)
    requires k <= |entries| && forall name :: name in expanded ==> Listed(name, entries, k)
    ensures Among(expanded, entries, k) == expanded
  {}

  predicate AddsAtMost(before: map<Name, nat>, after: map<Name, nat>, name: Name) {
    after == before || (name in after && after == before[name := after[name]])
  }

  /** A later decision does not change what the earlier ones saw. */
  lemma AmongLater(before: map<Name, nat>, after: map<Name, nat>, entries: seq<(Name, nat)>, k: nat, i: nat)
    requires i <= k < |entries|
    requires DistinctNames(entries)
    requires AddsAtMost(before, after, entries[k].0)
    ensures Among(after, entries, i) == Among(before, entries, i)
  {
    assert !Listed(entries[k].0, entries, i);
  }

  /**
   An entry is materialized exactly when it is too costly given the inlined entries before it. An
   inlined entry is recorded with its size expanded over those, and all its references together
   fit the budget.
   */
  ghost predicate Decided(refsIn: map<Name, Counts>, entries: seq<(Name, nat)>, expanded: map<Name, nat>,
      materialized: seq<bool>, i: nat)
    requires i < |entries|
  {
    var (name, bodyLen) := entries[i];
    var earlier := Among(expanded, entries, i);
    && i < |materialized|
    && materialized[i] == TooCostly(refsIn, earlier, name, bodyLen)
    && (name in expanded <==> !materialized[i])
    && (name in expanded ==> expanded[name] == ExpandedSize(refsIn, earlier, name, bodyLen) &&
                             expanded[name] * TotalRefs(refsIn, name) <= BUDGET)
  }

  lemma DecidedStays(refsIn: map<Name, Counts>, entries: seq<(Name, nat)>, before: map<Name, nat>,
      after: map<Name, nat>,
                     materialized: seq<bool>, r: bool, i: nat, k: nat)
    requires i < k < |entries| && Decided(refsIn, entries, before, materialized, i)
    requires DistinctNames(entries)
    requires AddsAtMost(before, after, entries[k].0)
    ensures Decided(refsIn, entries, after, materialized + [r], i)
  {
    AmongLater(before, after, entries, k, i);
    assert entries[i].0 != entries[k].0;
    hide TooCostly, ExpandedSize, Among;
  }

  lemma DecideOne(refsIn: map<Name, Counts>, entries: seq<(Name, nat)>, before: map<Name, nat>, after: map<Name, nat>,
                  materialized: seq<bool>, r: bool, k: nat)
    requires k < |entries| && |materialized| == k && DistinctNames(entries)
    requires forall name :: name in before ==> Listed(name, entries, k)
    requires forall i :: 0 <= i < k ==> Decided(refsIn, entries, before, materialized, i)
    requires r == TooCostly(refsIn, before, entries[k].0, entries[k].1)
    requires after ==
      if r then before else before[entries[k].0 := ExpandedSize(refsIn, before, entries[k].0, entries[k].1)]
    requires WithinBudget(refsIn, after)
    ensures forall name :: name in after ==> Listed(name, entries, k + 1)
    ensures forall i :: 0 <= i < k + 1 ==> Decided(refsIn, entries, after, materialized + [r], i)
  {
    forall name | name in after ensures Listed(name, entries, k + 1) {
      if name in before { ListedLater(name, entries, k); }
    }
    forall i | 0 <= i < k ensures Decided(refsIn, entries, after, materialized + [r], i) {
      DecidedStays(refsIn, entries, before, after, materialized, r, i, k);
    }
    AmongAll(before, entries, k);
    AmongLater(before, after, entries, k, k);
    assert !Listed(entries[k].0, entries, k);
    hide TooCostly, ExpandedSize, Among, Listed, TotalRefs;
    assert Decided(refsIn, entries, after, materialized + [r], k);
  }
}

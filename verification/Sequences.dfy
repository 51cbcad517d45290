/** Small facts about sequences, sets and bags shared by the relational models. */
module Sequences {

  datatype Option<+T> = None | Some(value: T)

  function Elems<T>(s: seq<T>): set<T> {
    set x | x in s
  }

  function FlatMap<A, B>(f: A -> seq<B>, s: seq<A>): seq<B> {
    if s == [] then [] else f(s[0]) + FlatMap(f, s[1..])
  }

  lemma NothingMapped<A, B>(f: A -> seq<B>)
    ensures FlatMap(f, []) == []
  {}

  lemma {:induction false} FlatMapConcat<A, B>(f: A -> seq<B>, s: seq<A>, t: seq<A>)
    ensures FlatMap(f, s + t) == FlatMap(f, s) + FlatMap(f, t)
  {
    if s == [] {
      assert s + t == t;
    } else {
      assert (s + t)[1..] == s[1..] + t;
      FlatMapConcat(f, s[1..], t);
    }
  }

  lemma FlatMapSnoc<A, B>(f: A -> seq<B>, s: seq<A>, x: A)
    ensures FlatMap(f, s + [x]) == FlatMap(f, s) + f(x)
  {
    FlatMapConcat(f, s, [x]);
    assert [x][1..] == [];
    assert FlatMap(f, [x]) == f(x) + [];
  }

  /** A row is produced by mapping a table exactly when some row of the table produces it. */
  lemma {:induction false} FlatMapElems<A, B>(f: A -> seq<B>, s: seq<A>, y: B)
    ensures y in FlatMap(f, s) <==> exists x :: x in s && y in f(x)
  {
    if s != [] {
      FlatMapElems(f, s[1..], y);
      assert forall x :: x in s <==> x == s[0] || x in s[1..];
    }
  }

  /** Mapping is insensitive to row order: equal bags map to equal bags. */
  lemma {:induction false} FlatMapBag<A, B>(f: A -> seq<B>, s: seq<A>, t: seq<A>)
    requires multiset(s) == multiset(t)
    ensures multiset(FlatMap(f, s)) == multiset(FlatMap(f, t))
    decreases |s|
  {
    if s == [] {
      assert |t| == |multiset(t)| == 0;
    } else {
      assert s[0] in multiset(t);
      var k :| 0 <= k < |t| && t[k] == s[0];
      var rest := t[..k] + t[k + 1..];
      assert t == t[..k] + [t[k]] + t[k + 1..];
      assert s == [s[0]] + s[1..];
      assert multiset(rest) == multiset(t) - multiset{s[0]};
      assert multiset(s[1..]) == multiset(s) - multiset{s[0]};
      FlatMapBag(f, s[1..], rest);
      FlatMapSnoc(f, t[..k], t[k]);
      FlatMapConcat(f, t[..k] + [t[k]], t[k + 1..]);
      FlatMapConcat(f, t[..k], t[k + 1..]);
    }
  }
}

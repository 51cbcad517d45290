/**
 RANGE_SESSIONIZE as window functions: per partition and in start order, a running maximum of the
 earlier range ends, a new-session indicator, a running sum of the indicators as session id, and
 the smallest start and largest end of each (partition, session id) group.

 Rows are listed in the one order that every window uses; ranges are bounded and half open.
 */
module RangeSessionize {
  import opened Sequences

  datatype Row<K> = Row(key: K, start: int, end: int)

  datatype Mode = Meets | Overlaps

  datatype Range = Range(start: int, end: int)

  // ----- the emitted window pipeline -----

  /** MAX(end) over the rows before position n in the partition of `key`; NULL when there are none. */
  function PrevMaxEnd<K(==)>(rows: seq<Row<K>>, key: K, n: nat): Option<int>
    requires n <= |rows|
  {
    if n == 0 then None
    else
      var prev, row := PrevMaxEnd(rows, key, n - 1), rows[n - 1];
      if row.key != key then prev
      else if prev.None? || prev.value < row.end then Some(row.end) else prev
  }

  function NewSession<K(==)>(mode: Mode, rows: seq<Row<K>>, i: nat): nat
    requires i < |rows|
  {
    match PrevMaxEnd(rows, rows[i].key, i)
    case None => 1
    case Some(m) => if (if mode == Meets then rows[i].start > m else rows[i].start >= m) then 1 else 0
  }

  /** SUM of the indicators over the first n rows, in the partition of `key`. */
  function RunningSum<K(==)>(mode: Mode, rows: seq<Row<K>>, key: K, n: nat): nat
    requires n <= |rows|
  {
    if n == 0 then 0
    else RunningSum(mode, rows, key, n - 1) + (if rows[n - 1].key == key then NewSession(mode, rows, n - 1) else 0)
  }

  function SessionId<K(==)>(mode: Mode, rows: seq<Row<K>>, i: nat): nat
    requires i < |rows|
  {
    RunningSum(mode, rows, rows[i].key, i + 1)
  }

  predicate Member<K(==)>(mode: Mode, rows: seq<Row<K>>, key: K, id: nat, i: nat) {
    i < |rows| && rows[i].key == key && SessionId(mode, rows, i) == id
  }

  /** MIN(start) and MAX(end) over the group of (key, id) among the first n rows. */
  function GroupRange<K(==)>(mode: Mode, rows: seq<Row<K>>, key: K, id: nat, n: nat): Option<Range>
    requires n <= |rows|
  {
    if n == 0 then None
    else
      var prev, row := GroupRange(mode, rows, key, id, n - 1), rows[n - 1];
      if !Member(mode, rows, key, id, n - 1) then prev
      else if prev.None? then Some(Range(row.start, row.end))
      else Some(Range(if row.start < prev.value.start then row.start else prev.value.start,
                      if row.end > prev.value.end then row.end else prev.value.end))
  }

  function SessionRange<K(==)>(mode: Mode, rows: seq<Row<K>>, i: nat): Option<Range>
    requires i < |rows|
  {
    GroupRange(mode, rows, rows[i].key, SessionId(mode, rows, i), |rows|)
  }

  // ----- what a session is -----

  /** Window input: each partition is in start order and every range is non-empty. */
  predicate Ordered<K(==)>(rows: seq<Row<K>>) {
    && (forall i, j :: 0 <= i < j < |rows| && rows[i].key == rows[j].key ==> rows[i].start <= rows[j].start)
    && (forall i :: 0 <= i < |rows| ==> rows[i].start < rows[i].end)
  }

  /** Ranges of one partition that meet or overlap (MEETS), or that overlap (OVERLAPS). */
  predicate Linked<K(==)>(mode: Mode, a: Row<K>, b: Row<K>) {
    a.key == b.key &&
    if mode == Meets then a.start <= b.end && b.start <= a.end else a.start < b.end && b.start < a.end
  }

  ghost predicate Chain<K>(mode: Mode, rows: seq<Row<K>>, path: seq<nat>) {
    && path != []
    && (forall k :: 0 <= k < |path| ==> path[k] < |rows|)
    && (forall k :: 0 <= k < |path| - 1 ==> Linked(mode, rows[path[k]], rows[path[k + 1]]))
  }

  ghost predicate Chained<K>(mode: Mode, rows: seq<Row<K>>, i: nat, j: nat) {
    exists path :: Chain(mode, rows, path) && path[0] == i && path[|path| - 1] == j
  }

  // ----- running maximum and running sum -----

  lemma {:induction false} PrevMaxEndIsMax<K>(rows: seq<Row<K>>, key: K, n: nat)
    requires n <= |rows|
    ensures forall j :: 0 <= j < n && rows[j].key == key ==>
              PrevMaxEnd(rows, key, n).Some? && rows[j].end <= PrevMaxEnd(rows, key, n).value
    ensures PrevMaxEnd(rows, key, n).Some? ==>
              exists j :: 0 <= j < n && rows[j].key == key && rows[j].end == PrevMaxEnd(rows, key, n).value
    decreases n
  {
    if n > 0 {
      PrevMaxEndIsMax(rows, key, n - 1);
      if rows[n - 1].key != key && PrevMaxEnd(rows, key, n - 1).Some? {
        var j :| 0 <= j < n - 1 && rows[j].key == key && rows[j].end == PrevMaxEnd(rows, key, n - 1).value;
      }
    }
  }

  lemma {:induction false} RunningSumGrows<K>(mode: Mode, rows: seq<Row<K>>, key: K, m: nat, n: nat)
    requires m <= n <= |rows|
    ensures RunningSum(mode, rows, key, m) <= RunningSum(mode, rows, key, n)
    decreases n
  {
    if m < n { RunningSumGrows(mode, rows, key, m, n - 1); }
  }

  /** No row of the partition in [m, n) opens a session, so the sum stands still. */
  lemma {:induction false} RunningSumFlat<K>(mode: Mode, rows: seq<Row<K>>, key: K, m: nat, n: nat)
    requires m <= n <= |rows|
    requires forall k :: m <= k < n && rows[k].key == key ==> NewSession(mode, rows, k) == 0
    ensures RunningSum(mode, rows, key, m) == RunningSum(mode, rows, key, n)
    decreases n
  {
    if m < n { RunningSumFlat(mode, rows, key, m, n - 1); }
  }

  // ----- links and ids -----

  /** A row linked to an earlier one is in its session, and so is everything between them. */
  lemma LinkSameId<K>(mode: Mode, rows: seq<Row<K>>, i: nat, j: nat)
    requires Ordered(rows) && i < j < |rows| && Linked(mode, rows[i], rows[j])
    ensures SessionId(mode, rows, i) == SessionId(mode, rows, j)
  {
    var key := rows[i].key;
    forall k | i + 1 <= k < j + 1 && rows[k].key == key
      ensures NewSession(mode, rows, k) == 0
    {
      PrevMaxEndIsMax(rows, key, k);
      assert rows[k].start <= rows[j].start;
    }
    RunningSumFlat(mode, rows, key, i + 1, j + 1);
  }

  /** A row that opens no session is linked to some earlier row. */
  lemma LinkBack<K>(mode: Mode, rows: seq<Row<K>>, k: nat) returns (m: nat)
    requires Ordered(rows) && k < |rows| && NewSession(mode, rows, k) == 0
    ensures m < k && Linked(mode, rows[m], rows[k])
    ensures SessionId(mode, rows, m) == SessionId(mode, rows, k)
  {
    var key := rows[k].key;
    PrevMaxEndIsMax(rows, key, k);
    m :| 0 <= m < k && rows[m].key == key && rows[m].end == PrevMaxEnd(rows, key, k).value;
    LinkSameId(mode, rows, m, k);
  }

  lemma ChainedJoin<K>(mode: Mode, rows: seq<Row<K>>, i: nat, j: nat, k: nat)
    requires Chained(mode, rows, i, j) && Chained(mode, rows, j, k)
    ensures Chained(mode, rows, i, k)
  {
    var p :| Chain(mode, rows, p) && p[0] == i && p[|p| - 1] == j;
    var q :| Chain(mode, rows, q) && q[0] == j && q[|q| - 1] == k;
    var path := p + q[1..];
    assert forall x :: |p| <= x < |path| ==> path[x] == q[x - |p| + 1];
    assert Chain(mode, rows, path);
    assert path[|path| - 1] == k;
  }

  lemma ChainedBack<K>(mode: Mode, rows: seq<Row<K>>, i: nat, j: nat)
    requires Chained(mode, rows, i, j)
    ensures Chained(mode, rows, j, i)
  {
    var p :| Chain(mode, rows, p) && p[0] == i && p[|p| - 1] == j;
    var path := seq(|p|, k requires 0 <= k < |p| => p[|p| - 1 - k]);
    forall k | 0 <= k < |path| - 1 ensures Linked(mode, rows[path[k]], rows[path[k + 1]]) {
      assert Linked(mode, rows[p[|p| - 2 - k]], rows[p[|p| - 2 - k + 1]]);
    }
    assert Chain(mode, rows, path);
  }

  lemma ChainedOne<K>(mode: Mode, rows: seq<Row<K>>, i: nat, j: nat)
    requires i < |rows| && j < |rows| && (i == j || Linked(mode, rows[i], rows[j]))
    ensures Chained(mode, rows, i, j)
  {
    var path := if i == j then [i] else [i, j];
    assert Chain(mode, rows, path);
  }

  /** The row that opens the session of row k, chained to it. */
  lemma {:induction false} SessionOpener<K>(mode: Mode, rows: seq<Row<K>>, k: nat) returns (f: nat)
    requires Ordered(rows) && k < |rows|
    ensures f <= k && rows[f].key == rows[k].key && NewSession(mode, rows, f) == 1
    ensures SessionId(mode, rows, f) == SessionId(mode, rows, k)
    ensures Chained(mode, rows, f, k)
    decreases k
  {
    if NewSession(mode, rows, k) == 1 {
      f := k;
      ChainedOne(mode, rows, k, k);
    } else {
      var m := LinkBack(mode, rows, k);
      f := SessionOpener(mode, rows, m);
      ChainedOne(mode, rows, m, k);
      ChainedJoin(mode, rows, f, m, k);
    }
  }

  /** Ids grow along a partition, strictly at a row that opens a session. */
  lemma OpenerAfter<K>(mode: Mode, rows: seq<Row<K>>, i: nat, f: nat)
    requires i < f < |rows| && rows[i].key == rows[f].key && NewSession(mode, rows, f) == 1
    ensures SessionId(mode, rows, i) < SessionId(mode, rows, f)
  {
    RunningSumGrows(mode, rows, rows[f].key, i + 1, f);
  }

  lemma {:induction false} ChainSameId<K>(mode: Mode, rows: seq<Row<K>>, path: seq<nat>)
    requires Ordered(rows) && Chain(mode, rows, path)
    ensures rows[path[0]].key == rows[path[|path| - 1]].key
    ensures SessionId(mode, rows, path[0]) == SessionId(mode, rows, path[|path| - 1])
    decreases |path|
  {
    if |path| > 1 {
      var i, j := path[0], path[1];
      assert Linked(mode, rows[i], rows[j]);
      if i < j { LinkSameId(mode, rows, i, j); }
      if j < i { LinkSameId(mode, rows, j, i); }
      var rest := path[1..];
      assert forall k :: 0 <= k < |rest| ==> rest[k] == path[k + 1];
      ChainSameId(mode, rows, rest);
    }
  }

  /**
   Two rows of a partition get the same session id exactly when a chain of linked ranges of the
   partition leads from one to the other.
   */
  lemma SameSessionIffChained<K>(mode: Mode, rows: seq<Row<K>>, i: nat, j: nat)
    requires Ordered(rows) && i < |rows| && j < |rows| && rows[i].key == rows[j].key
    ensures SessionId(mode, rows, i) == SessionId(mode, rows, j) <==> Chained(mode, rows, i, j)
  {
    if SessionId(mode, rows, i) == SessionId(mode, rows, j) {
      var f := SessionOpener(mode, rows, i);
      var g := SessionOpener(mode, rows, j);
      if f < g { OpenerAfter(mode, rows, f, g); }
      if g < f { OpenerAfter(mode, rows, g, f); }
      ChainedBack(mode, rows, f, i);
      ChainedJoin(mode, rows, i, f, j);
    }
    if Chained(mode, rows, i, j) {
      var path :| Chain(mode, rows, path) && path[0] == i && path[|path| - 1] == j;
      ChainSameId(mode, rows, path);
    }
  }

  // ----- session ranges -----

  /** A group's range is bounded by, and reached by, its members. */
  lemma {:induction false} GroupRangeBounds<K>(mode: Mode, rows: seq<Row<K>>, key: K, id: nat, n: nat)
    requires n <= |rows|
    ensures var g := GroupRange(mode, rows, key, id, n);
            && (forall i: nat :: i < n && Member(mode, rows, key, id, i) ==>
                  g.Some? && g.value.start <= rows[i].start && rows[i].end <= g.value.end)
            && (g.Some? ==> exists i: nat :: i < n && Member(mode, rows, key, id, i) && rows[i].start == g.value.start)
            && (g.Some? ==> exists i: nat :: i < n && Member(mode, rows, key, id, i) && rows[i].end == g.value.end)
    decreases n
  {
    if n > 0 {
      GroupRangeBounds(mode, rows, key, id, n - 1);
      var prev, g := GroupRange(mode, rows, key, id, n - 1), GroupRange(mode, rows, key, id, n);
      if Member(mode, rows, key, id, n - 1) {
        if prev.Some? {
          var i: nat :| i < n - 1 && Member(mode, rows, key, id, i) && rows[i].start == prev.value.start;
          var j: nat :| j < n - 1 && Member(mode, rows, key, id, j) && rows[j].end == prev.value.end;
          assert rows[i].start == g.value.start || rows[n - 1].start == g.value.start;
          assert rows[j].end == g.value.end || rows[n - 1].end == g.value.end;
        }
      } else if prev.Some? {
        var i: nat :| i < n - 1 && Member(mode, rows, key, id, i) && rows[i].start == prev.value.start;
        var j: nat :| j < n - 1 && Member(mode, rows, key, id, j) && rows[j].end == prev.value.end;
      }
    }
  }

  /** Every point between the session's first start and the end of row k is covered by a member up to k. */
  lemma {:induction false} CoveredUpTo<K>(mode: Mode, rows: seq<Row<K>>, k: nat, p: int) returns (m: nat)
    requires Ordered(rows) && k < |rows|
    requires SessionRange(mode, rows, k).Some? && SessionRange(mode, rows, k).value.start <= p < rows[k].end
    ensures Member(mode, rows, rows[k].key, SessionId(mode, rows, k), m)
    ensures rows[m].start <= p < rows[m].end
    decreases k
  {
    if rows[k].start <= p {
      m := k;
    } else if NewSession(mode, rows, k) == 1 {
      var key, id := rows[k].key, SessionId(mode, rows, k);
      GroupRangeBounds(mode, rows, key, id, |rows|);
      var start := SessionRange(mode, rows, k).value.start;
      var i: nat :| i < |rows| && Member(mode, rows, key, id, i) && rows[i].start == start;
      if i < k {
        OpenerAfter(mode, rows, i, k);
      }
      assert false;
    } else {
      var j := LinkBack(mode, rows, k);
      m := CoveredUpTo(mode, rows, j, p);
    }
  }

  /** The session range of a row is exactly the union of the ranges of its session. */
  lemma SessionRangeIsUnion<K>(mode: Mode, rows: seq<Row<K>>, i: nat, p: int)
    requires Ordered(rows) && i < |rows|
    ensures SessionRange(mode, rows, i).Some?
    ensures SessionRange(mode, rows, i).value.start <= p < SessionRange(mode, rows, i).value.end <==>
            exists m: nat ::
              Member(mode, rows, rows[i].key, SessionId(mode, rows, i), m) && rows[m].start <= p < rows[m].end
  {
    var key, id := rows[i].key, SessionId(mode, rows, i);
    GroupRangeBounds(mode, rows, key, id, |rows|);
    assert Member(mode, rows, key, id, i);
    var r := SessionRange(mode, rows, i).value;
    if r.start <= p < r.end {
      var k: nat :| k < |rows| && Member(mode, rows, key, id, k) && rows[k].end == r.end;
      var m := CoveredUpTo(mode, rows, k, p);
    }
  }

  /** A row of a later session starts after every range of an earlier one has ended. */
  lemma SessionsApart<K>(mode: Mode, rows: seq<Row<K>>, i: nat, j: nat)
    requires Ordered(rows) && i < |rows| && j < |rows| && rows[i].key == rows[j].key
    requires SessionId(mode, rows, i) < SessionId(mode, rows, j)
    ensures if mode == Meets then rows[i].end < rows[j].start else rows[i].end <= rows[j].start
  {
    var f := SessionOpener(mode, rows, j);
    if f <= i { RunningSumGrows(mode, rows, rows[i].key, f + 1, i + 1); }
    PrevMaxEndIsMax(rows, rows[f].key, f);
  }

  /** Session ranges of different sessions of a partition never overlap; under MEETS they do not even meet. */
  lemma SessionRangesApart<K>(mode: Mode, rows: seq<Row<K>>, i: nat, j: nat)
    requires Ordered(rows) && i < |rows| && j < |rows| && rows[i].key == rows[j].key
    requires SessionId(mode, rows, i) < SessionId(mode, rows, j)
    ensures SessionRange(mode, rows, i).Some? && SessionRange(mode, rows, j).Some?
    ensures var a, b := SessionRange(mode, rows, i).value, SessionRange(mode, rows, j).value;
            a.start < a.end && b.start < b.end && if mode == Meets then a.end < b.start else a.end <= b.start
  {
    var key, s, t := rows[i].key, SessionId(mode, rows, i), SessionId(mode, rows, j);
    GroupRangeBounds(mode, rows, key, s, |rows|);
    GroupRangeBounds(mode, rows, key, t, |rows|);
    assert Member(mode, rows, key, s, i) && Member(mode, rows, key, t, j);
    var a, b := SessionRange(mode, rows, i).value, SessionRange(mode, rows, j).value;
    var k: nat :| k < |rows| && Member(mode, rows, key, s, k) && rows[k].end == a.end;
    var l: nat :| l < |rows| && Member(mode, rows, key, t, l) && rows[l].start == b.start;
    SessionsApart(mode, rows, k, l);
  }

  /** What the query returns: rows of a partition show the same session_range exactly when they are chained. */
  lemma SameRangeIffChained<K>(mode: Mode, rows: seq<Row<K>>, i: nat, j: nat)
    requires Ordered(rows) && i < |rows| && j < |rows| && rows[i].key == rows[j].key
    ensures SessionRange(mode, rows, i) == SessionRange(mode, rows, j) <==> Chained(mode, rows, i, j)
  {
    SameSessionIffChained(mode, rows, i, j);
    if SessionId(mode, rows, i) < SessionId(mode, rows, j) { SessionRangesApart(mode, rows, i, j); }
    if SessionId(mode, rows, j) < SessionId(mode, rows, i) { SessionRangesApart(mode, rows, j, i); }
  }

  // ----- the order of rows with equal starts -----

  /** Where in another list of the same rows each row of a path is. */
  lemma {:induction false} SamePath<K>(mode: Mode, a: seq<Row<K>>, b: seq<Row<K>>, path: seq<nat>, j: nat)
      returns (other: seq<nat>)
    requires Chain(mode, a, path) && (forall x :: x in a ==> x in b) && j < |b| && a[path[0]] == b[j]
    ensures Chain(mode, b, other) && other[0] == j && a[path[|path| - 1]] == b[other[|other| - 1]]
    decreases |path|
  {
    other := [j];
    if |path| > 1 {
      var rest := path[1..];
      assert Chain(mode, a, rest) && a[path[1]] in b;
      var k :| 0 <= k < |b| && b[k] == a[path[1]];
      var tail := SamePath(mode, a, b, rest, k);
      other := [j] + tail;
      assert Linked(mode, a[path[0]], a[path[1]]);
      assert forall n :: 0 < n < |other| ==> other[n] == tail[n - 1];
    }
  }

  lemma SamePoints<K>(mode: Mode, a: seq<Row<K>>, b: seq<Row<K>>, i: nat, j: nat, p: int)
    requires Ordered(a) && Ordered(b) && (forall x :: x in a ==> x in b)
    requires i < |a| && j < |b| && a[i] == b[j]
    requires SessionRange(mode, a, i).Some? && SessionRange(mode, b, j).Some?
    requires SessionRange(mode, a, i).value.start <= p < SessionRange(mode, a, i).value.end
    ensures SessionRange(mode, b, j).value.start <= p < SessionRange(mode, b, j).value.end
  {
    SessionRangeIsUnion(mode, a, i, p);
    var m: nat :| Member(mode, a, a[i].key, SessionId(mode, a, i), m) && a[m].start <= p < a[m].end;
    SameSessionIffChained(mode, a, i, m);
    var path :| Chain(mode, a, path) && path[0] == i && path[|path| - 1] == m;
    var other := SamePath(mode, a, b, path, j);
    var n := other[|other| - 1];
    ChainSameId(mode, b, other);
    assert Member(mode, b, b[j].key, SessionId(mode, b, j), n);
    SessionRangeIsUnion(mode, b, j, p);
  }

  /** Rows with equal starts may come in any order, and rows may be repeated: a row's session range stays the same. */
  lemma AnyOrder<K>(mode: Mode, a: seq<Row<K>>, b: seq<Row<K>>, i: nat, j: nat)
    requires Ordered(a) && Ordered(b) && (forall x :: x in a <==> x in b)
    requires i < |a| && j < |b| && a[i] == b[j]
    ensures SessionRange(mode, a, i) == SessionRange(mode, b, j)
  {
    RangeNotEmpty(mode, a, i);
    RangeNotEmpty(mode, b, j);
    var r, s := SessionRange(mode, a, i).value, SessionRange(mode, b, j).value;
    SamePoints(mode, a, b, i, j, r.start);
    SamePoints(mode, a, b, i, j, r.end - 1);
    SamePoints(mode, b, a, j, i, s.start);
    SamePoints(mode, b, a, j, i, s.end - 1);
  }

  lemma RangeNotEmpty<K>(mode: Mode, rows: seq<Row<K>>, i: nat)
    requires Ordered(rows) && i < |rows|
    ensures SessionRange(mode, rows, i).Some?
    ensures SessionRange(mode, rows, i).value.start < SessionRange(mode, rows, i).value.end
  {
    GroupRangeBounds(mode, rows, rows[i].key, SessionId(mode, rows, i), |rows|);
    assert Member(mode, rows, rows[i].key, SessionId(mode, rows, i), i);
  }

  predicate ByStart<K(==)>(rows: seq<Row<K>>) {
    forall i, j :: 0 <= i < j < |rows| ==> rows[i].start <= rows[j].start
  }

  lemma {:induction false} Insert<K>(row: Row<K>, rows: seq<Row<K>>) returns (sorted: seq<Row<K>>)
    requires ByStart(rows)
    ensures ByStart(sorted) && multiset(sorted) == multiset(rows) + multiset{row}
    decreases |rows|
  {
    if rows == [] || row.start <= rows[0].start {
      sorted := [row] + rows;
    } else {
      var rest := Insert(row, rows[1..]);
      sorted := [rows[0]] + rest;
      assert rows == [rows[0]] + rows[1..];
      forall x | x in rest ensures rows[0].start <= x.start {
        assert x in multiset(rest);
        assert x == row || x in rows[1..];
      }
    }
  }

  /** The rows of every table with non-empty ranges can be put in the order of the windows. */
  lemma {:induction false} OrderExists<K>(rows: seq<Row<K>>) returns (sorted: seq<Row<K>>)
    requires forall x :: x in rows ==> x.start < x.end
    ensures Ordered(sorted) && ByStart(sorted) && multiset(sorted) == multiset(rows)
    decreases |rows|
  {
    if rows == [] {
      sorted := [];
    } else {
      var rest := OrderExists(rows[1..]);
      sorted := Insert(rows[0], rest);
      assert rows == [rows[0]] + rows[1..];
      forall x | x in sorted ensures x.start < x.end {
        assert x in multiset(sorted);
        assert x in multiset(rows);
      }
    }
  }
}

/**
 GAP_FILL with the locf and linear methods as window functions: a running COUNT of the non-null
 values (forwards, and backwards for linear) serves as a group id, and MAX over such a group
 picks the one value it holds.

 Rows are the ticks joined with the source, in the one order that every window uses.
 */
module GapFill {
  import opened Sequences

  /** Timestamps are in microseconds. */
  datatype Row<K> = Row(key: K, ts: int, value: Option<real>)

  // ----- the emitted window pipeline -----

  /** COUNT(value) over the first n rows, in the partition of `key`. */
  function CountTo<K(==)>(rows: seq<Row<K>>, key: K, n: nat): nat
    requires n <= |rows|
  {
    if n == 0 then 0
    else CountTo(rows, key, n - 1) + (if rows[n - 1].key == key && rows[n - 1].value.Some? then 1 else 0)
  }

  /** COUNT(value) over the rows from position n on, in the partition of `key`. */
  function CountFrom<K(==)>(rows: seq<Row<K>>, key: K, n: nat): nat
    requires n <= |rows|
    decreases |rows| - n
  {
    if n == |rows| then 0
    else CountFrom(rows, key, n + 1) + (if rows[n].key == key && rows[n].value.Some? then 1 else 0)
  }

  /** Group ids: rows up to and including the current one, and from the current one on. */
  function BackGroup<K(==)>(rows: seq<Row<K>>, i: nat): nat
    requires i < |rows|
  {
    CountTo(rows, rows[i].key, i + 1)
  }

  function ForwardGroup<K(==)>(rows: seq<Row<K>>, i: nat): nat
    requires i < |rows|
  {
    CountFrom(rows, rows[i].key, i)
  }

  datatype Direction = Back | Forward

  predicate SameGroup<K(==)>(dir: Direction, rows: seq<Row<K>>, i: nat, j: nat)
    requires i < |rows| && j < |rows|
  {
    rows[i].key == rows[j].key &&
    if dir == Back then BackGroup(rows, i) == BackGroup(rows, j) else ForwardGroup(rows, i) == ForwardGroup(rows, j)
  }

  datatype Measure = Value | Time

  /** The aggregated column: the value, or the timestamp where the value is not NULL. */
  function Measured<K>(m: Measure, row: Row<K>): Option<real> {
    if m == Value || row.value.None? then row.value else Some(row.ts as real)
  }

  /** MAX of the measure over the first n rows of the group of row i; NULLs are ignored. */
  function GroupMax<K(==)>(dir: Direction, m: Measure, rows: seq<Row<K>>, i: nat, n: nat): Option<real>
    requires i < |rows| && n <= |rows|
  {
    if n == 0 then None
    else
      var prev, x := GroupMax(dir, m, rows, i, n - 1), Measured(m, rows[n - 1]);
      if !SameGroup(dir, rows, i, n - 1) || x.None? then prev
      else if prev.None? || prev.value < x.value then x else prev
  }

  function Window<K(==)>(dir: Direction, m: Measure, rows: seq<Row<K>>, i: nat): Option<real>
    requires i < |rows|
  {
    GroupMax(dir, m, rows, i, |rows|)
  }

  function Locf<K(==)>(rows: seq<Row<K>>, i: nat): Option<real>
    requires i < |rows|
  {
    Window(Back, Value, rows, i)
  }

  /** TIMESTAMP_DIFF(a, b, SECOND): whole seconds, truncated towards zero. */
  function SecondsBetween(a: real, b: real): int {
    var d := (a - b) / 1000000.0;
    if d >= 0.0 then d.Floor else -(-d).Floor
  }

  /** The whole seconds between two times, as many forwards as backwards. */
  lemma SecondsBetweenIs(a: int, b: int, k: nat)
    ensures a >= b ==>
      (SecondsBetween(a as real, b as real) == k <==> 1000000 * k <= a - b < 1000000 * (k + 1))
    ensures SecondsBetween(b as real, a as real) == -SecondsBetween(a as real, b as real)
  {
    if a >= b {
      var d := (a as real - b as real) / 1000000.0;
      assert d * 1000000.0 == (a - b) as real && d >= 0.0;
      assert d.Floor as real <= d < d.Floor as real + 1.0;
      assert (1000000 * d.Floor) as real == 1000000.0 * d.Floor as real;
    }
    assert (b as real - a as real) / 1000000.0 == -((a as real - b as real) / 1000000.0);
  }

  function Linear<K(==)>(rows: seq<Row<K>>, i: nat): Option<real>
    requires i < |rows|
  {
    var prevV, nextV := Window(Back, Value, rows, i), Window(Forward, Value, rows, i);
    var prevT, nextT := Window(Back, Time, rows, i), Window(Forward, Time, rows, i);
    if rows[i].value.Some? then rows[i].value
    else if prevV.None? || nextV.None? || prevT.None? || nextT.None? then None
    else
      var span := SecondsBetween(nextT.value, prevT.value);
      if span == 0 then prevV
      else
        Some(Interpolate(prevV.value, nextV.value, SecondsBetween(rows[i].ts as real, prevT.value), span))
  }

  function Interpolate(a: real, b: real, elapsed: int, span: int): real
    requires span != 0
  {
    a + elapsed as real * (b - a) / span as real
  }

  // ----- what the methods promise -----

  /** The last row at or before position i in the partition with a value. */
  function LastKnown<K(==)>(rows: seq<Row<K>>, key: K, n: nat): Option<nat>
    requires n <= |rows|
  {
    if n == 0 then None
    else if rows[n - 1].key == key && rows[n - 1].value.Some? then Some(n - 1)
    else LastKnown(rows, key, n - 1)
  }

  /** The first row at or after position n in the partition with a value. */
  function NextKnown<K(==)>(rows: seq<Row<K>>, key: K, n: nat): Option<nat>
    requires n <= |rows|
    decreases |rows| - n
  {
    if n == |rows| then None
    else if rows[n].key == key && rows[n].value.Some? then Some(n)
    else NextKnown(rows, key, n + 1)
  }

  function Known<K(==)>(dir: Direction, rows: seq<Row<K>>, i: nat): Option<nat>
    requires i < |rows|
  {
    if dir == Back then LastKnown(rows, rows[i].key, i + 1) else NextKnown(rows, rows[i].key, i)
  }

  // ----- each group holds at most one value -----

  predicate Has<K(==)>(rows: seq<Row<K>>, key: K, j: nat) {
    j < |rows| && rows[j].key == key && rows[j].value.Some?
  }

  lemma {:induction false} LastKnownIsLast<K>(rows: seq<Row<K>>, key: K, n: nat)
    requires n <= |rows|
    ensures match LastKnown(rows, key, n)
            case None => forall j: nat :: j < n ==> !Has(rows, key, j)
            case Some(l) => l < n && Has(rows, key, l) && forall j: nat :: l < j < n ==> !Has(rows, key, j)
    decreases n
  {
    if n > 0 { LastKnownIsLast(rows, key, n - 1); }
  }

  lemma {:induction false} NextKnownIsNext<K>(rows: seq<Row<K>>, key: K, n: nat)
    requires n <= |rows|
    ensures match NextKnown(rows, key, n)
            case None => forall j: nat :: n <= j < |rows| ==> !Has(rows, key, j)
            case Some(l) => n <= l < |rows| && Has(rows, key, l) && forall j: nat :: n <= j < l ==> !Has(rows, key, j)
    decreases |rows| - n
  {
    if n < |rows| { NextKnownIsNext(rows, key, n + 1); }
  }

  /** The running count changes exactly where the rows in between hold a value. */
  lemma {:induction false} CountToSame<K>(rows: seq<Row<K>>, key: K, m: nat, n: nat)
    requires m <= n <= |rows|
    ensures CountTo(rows, key, m) <= CountTo(rows, key, n)
    ensures CountTo(rows, key, m) == CountTo(rows, key, n) <==> forall j: nat :: m <= j < n ==> !Has(rows, key, j)
    decreases n
  {
    if m < n {
      CountToSame(rows, key, m, n - 1);
      assert CountTo(rows, key, n) == CountTo(rows, key, n - 1) + (if Has(rows, key, n - 1) then 1 else 0);
    }
  }

  lemma {:induction false} CountFromSame<K>(rows: seq<Row<K>>, key: K, m: nat, n: nat)
    requires m <= n <= |rows|
    ensures CountFrom(rows, key, n) <= CountFrom(rows, key, m)
    ensures CountFrom(rows, key, m) == CountFrom(rows, key, n) <==> forall j: nat :: m <= j < n ==> !Has(rows, key, j)
    decreases n - m
  {
    if m < n {
      CountFromSame(rows, key, m + 1, n);
      assert CountFrom(rows, key, m) == CountFrom(rows, key, m + 1) + (if Has(rows, key, m) then 1 else 0);
    }
  }

  lemma BackGroupHolds<K>(rows: seq<Row<K>>, i: nat, j: nat)
    requires i < |rows|
    ensures Has(rows, rows[i].key, j) && BackGroup(rows, j) == BackGroup(rows, i) <==> Known(Back, rows, i) == Some(j)
  {
    var key := rows[i].key;
    LastKnownIsLast(rows, key, i + 1);
    if j < |rows| {
      if j <= i { CountToSame(rows, key, j + 1, i + 1); } else { CountToSame(rows, key, i + 1, j + 1); }
    }
  }

  lemma ForwardGroupHolds<K>(rows: seq<Row<K>>, i: nat, j: nat)
    requires i < |rows|
    ensures Has(rows, rows[i].key, j) && ForwardGroup(rows, j) == ForwardGroup(rows, i)
            <==> Known(Forward, rows, i) == Some(j)
  {
    var key := rows[i].key;
    NextKnownIsNext(rows, key, i);
    if j < |rows| {
      if i <= j { CountFromSame(rows, key, i, j); } else { CountFromSame(rows, key, j, i); }
    }
  }

  /** A row of the group of i has a value exactly when it is the known row of i. */
  lemma GroupHoldsKnown<K>(dir: Direction, rows: seq<Row<K>>, i: nat, j: nat)
    requires i < |rows| && j < |rows|
    ensures SameGroup(dir, rows, i, j) && rows[j].value.Some? <==> Known(dir, rows, i) == Some(j)
  {
    if dir == Back { BackGroupHolds(rows, i, j); } else { ForwardGroupHolds(rows, i, j); }
  }

  lemma {:induction false} GroupMaxIsKnown<K>(dir: Direction, m: Measure, rows: seq<Row<K>>, i: nat, n: nat)
    requires i < |rows| && n <= |rows|
    ensures GroupMax(dir, m, rows, i, n) ==
              match Known(dir, rows, i)
              case None => None
              case Some(j) => if j < n then Measured(m, rows[j]) else None
    decreases n
  {
    if n > 0 {
      GroupMaxIsKnown(dir, m, rows, i, n - 1);
      GroupHoldsKnown(dir, rows, i, n - 1);
    }
  }

  /** MAX over a counting group is the value, or the time, of the nearest row with a value. */
  lemma WindowIsKnown<K>(dir: Direction, m: Measure, rows: seq<Row<K>>, i: nat)
    requires i < |rows|
    ensures match Known(dir, rows, i)
            case None => Window(dir, m, rows, i) == None
            case Some(j) =>
              && j < |rows| && rows[j].key == rows[i].key && rows[j].value.Some?
              && (if dir == Back then j <= i else i <= j)
              && Window(dir, m, rows, i) == Some(if m == Value then rows[j].value.value else rows[j].ts as real)
  {
    GroupMaxIsKnown(dir, m, rows, i, |rows|);
    if dir == Back {
      LastKnownIsLast(rows, rows[i].key, i + 1);
    } else {
      NextKnownIsNext(rows, rows[i].key, i);
    }
  }

  /**
   Last observation carried forward: the result is the value of the last row of the partition at
   or before this one that has a value, and NULL when there is none.
   */
  lemma LocfIsLastObservation<K>(rows: seq<Row<K>>, i: nat)
    requires i < |rows|
    ensures match Locf(rows, i)
            case None => forall j: nat :: j <= i ==> !Has(rows, rows[i].key, j)
            case Some(v) => exists j: nat :: j <= i && Has(rows, rows[i].key, j) && rows[j].value == Some(v) &&
                              forall k: nat :: j < k <= i ==> !Has(rows, rows[i].key, k)
  {
    WindowIsKnown(Back, Value, rows, i);
    LastKnownIsLast(rows, rows[i].key, i + 1);
  }

  // ----- linear interpolation -----

  predicate TimeOrdered<K(==)>(rows: seq<Row<K>>) {
    forall i, j :: 0 <= i < j < |rows| && rows[i].key == rows[j].key ==> rows[i].ts <= rows[j].ts
  }

  lemma FloorMonotone(x: real, y: real)
    requires 0.0 <= x <= y
    ensures 0 <= x.Floor <= y.Floor
  {}

  lemma SecondsMonotone(a: real, b: real, c: real)
    requires a <= b <= c
    ensures 0 <= SecondsBetween(b, a) <= SecondsBetween(c, a)
  {
    var x, y := (b - a) / 1000000.0, (c - a) / 1000000.0;
    assert 0.0 <= x <= y;
    FloorMonotone(x, y);
  }

  ghost predicate Between(a: real, x: real, b: real) {
    a <= x <= b || b <= x <= a
  }

  /** A point at the fraction d/n of the way from a to b lies between them. */
  lemma OnTheWay(a: real, b: real, d: int, n: int)
    requires 0 <= d <= n && n > 0
    ensures Between(a, Interpolate(a, b, d, n), b)
  {
    var t := d as real / n as real;
    assert 0.0 <= t <= 1.0;
    InterpolateStep(a, b, d, n);
    hide Interpolate;
    Fraction(t, b - a);
  }

  lemma InterpolateStep(a: real, b: real, d: int, n: int)
    requires n != 0
    ensures Interpolate(a, b, d, n) == a + (d as real / n as real) * (b - a)
  {
    DivideFirst(d as real, b - a, n as real);
  }

  lemma DivideFirst(x: real, y: real, n: real)
    requires n != 0.0
    ensures x * y / n == (x / n) * y
  {
    assert (x / n) * y * n == x * y;
  }

  lemma Fraction(t: real, diff: real)
    requires 0.0 <= t <= 1.0
    ensures (0.0 <= diff ==> 0.0 <= t * diff <= diff) && (diff <= 0.0 ==> diff <= t * diff <= 0.0)
  {
    if 0.0 <= diff {
      assert (1.0 - t) * diff >= 0.0;
      assert (1.0 - t) * diff == diff - t * diff;
    } else {
      assert (1.0 - t) * diff <= 0.0;
      assert (1.0 - t) * diff == diff - t * diff;
    }
  }

  /**
   The linear result keeps every original value; it is NULL exactly where the value is missing
   and there is no value before, or none after; anywhere else it lies between the nearest values
   before and after.
   */
  lemma LinearInterpolates<K>(rows: seq<Row<K>>, i: nat)
    requires i < |rows| && TimeOrdered(rows)
    ensures rows[i].value.Some? ==> Linear(rows, i) == rows[i].value
    ensures Linear(rows, i).None? <==>
              rows[i].value.None? && (Known(Back, rows, i).None? || Known(Forward, rows, i).None?)
    ensures rows[i].value.None? && Linear(rows, i).Some? ==>
              var p, q := Known(Back, rows, i).value, Known(Forward, rows, i).value;
              && p < i < q < |rows| && rows[p].value.Some? && rows[q].value.Some?
              && Between(rows[p].value.value, Linear(rows, i).value, rows[q].value.value)
  {
    LinearAt(rows, i);
    if rows[i].value.None? && Linear(rows, i).Some? {
      var p, q := Known(Back, rows, i).value, Known(Forward, rows, i).value;
      var a, b, c := rows[p].ts as real, rows[i].ts as real, rows[q].ts as real;
      SecondsMonotone(a, b, c);
      hide Linear, SecondsBetween, Interpolate;
      if SecondsBetween(c, a) != 0 {
        OnTheWay(rows[p].value.value, rows[q].value.value, SecondsBetween(b, a), SecondsBetween(c, a));
      }
    }
  }

  /** The linear result in terms of the nearest rows with a value. */
  lemma LinearAt<K>(rows: seq<Row<K>>, i: nat)
    requires i < |rows|
    ensures rows[i].value.Some? ==> Linear(rows, i) == rows[i].value
    ensures rows[i].value.None? ==>
              match (Known(Back, rows, i), Known(Forward, rows, i))
              case (Some(p), Some(q)) =>
                && p < i < q < |rows| && rows[p].key == rows[i].key == rows[q].key
                && rows[p].value.Some? && rows[q].value.Some?
                && var span := SecondsBetween(rows[q].ts as real, rows[p].ts as real);
                Linear(rows, i) ==
                  if span == 0 then rows[p].value
                  else Some(Interpolate(rows[p].value.value, rows[q].value.value,
                                        SecondsBetween(rows[i].ts as real, rows[p].ts as real), span))
              case _ => Linear(rows, i) == None
  {
    hide SecondsBetween, Interpolate, Window, Known;
    WindowIsKnown(Back, Value, rows, i);
    WindowIsKnown(Back, Time, rows, i);
    WindowIsKnown(Forward, Value, rows, i);
    WindowIsKnown(Forward, Time, rows, i);
  }

  /** x is on the line from a to b, `elapsed` out of `span` units of time along it. */
  predicate OnLine(a: real, b: real, x: real, elapsed: int, span: int) {
    (x - a) * span as real == elapsed as real * (b - a)
  }

  /** Between two neighbours less than a second apart the earlier value; otherwise the whole seconds give the ratio. */
  lemma LinearIs<K>(rows: seq<Row<K>>, i: nat, elapsed: nat, span: nat)
    requires i < |rows| && rows[i].value.None?
    requires Known(Back, rows, i).Some? && Known(Forward, rows, i).Some?
    requires var p, q := Known(Back, rows, i).value, Known(Forward, rows, i).value;
      && p < |rows| && q < |rows| && rows[p].ts <= rows[i].ts <= rows[q].ts
      && 1000000 * elapsed <= rows[i].ts - rows[p].ts < 1000000 * (elapsed + 1)
      && 1000000 * span <= rows[q].ts - rows[p].ts < 1000000 * (span + 1)
    ensures var p, q := Known(Back, rows, i).value, Known(Forward, rows, i).value;
      && Linear(rows, i).Some? && rows[p].value.Some? && rows[q].value.Some?
      && var a, b, x := rows[p].value.value, rows[q].value.value, Linear(rows, i).value;
      if span == 0 then x == a else OnLine(a, b, x, elapsed, span)
  {
    LinearAt(rows, i);
    var p, q := Known(Back, rows, i).value, Known(Forward, rows, i).value;
    SecondsBetweenIs(rows[i].ts, rows[p].ts, elapsed);
    SecondsBetweenIs(rows[q].ts, rows[p].ts, span);
    hide *;
    if span != 0 { InterpolateIs(rows[p].value.value, rows[q].value.value, elapsed, span); }
  }

  lemma InterpolateIs(a: real, b: real, elapsed: nat, span: nat)
    requires span != 0
    ensures OnLine(a, b, Interpolate(a, b, elapsed, span), elapsed, span)
  {}

  /**
   The result is on the line through the neighbouring values exactly when these are equal, or cutting the elapsed
   time and the span to whole seconds keeps their ratio; with less than a second between the neighbours, only at
   the time of the earlier one.
   */
  lemma LinearOnTheLine<K>(rows: seq<Row<K>>, i: nat)
    requires i < |rows| && rows[i].value.None?
    requires Known(Back, rows, i).Some? && Known(Forward, rows, i).Some?
    ensures var p, q := Known(Back, rows, i).value, Known(Forward, rows, i).value;
            && p < |rows| && q < |rows| && Linear(rows, i).Some? && rows[p].value.Some? && rows[q].value.Some?
            && var a, b, elapsed, span := rows[p].value.value, rows[q].value.value,
                 rows[i].ts - rows[p].ts, rows[q].ts - rows[p].ts;
            var cutElapsed, cutSpan := SecondsBetween(rows[i].ts as real, rows[p].ts as real),
              SecondsBetween(rows[q].ts as real, rows[p].ts as real);
            OnLine(a, b, Linear(rows, i).value, elapsed, span) <==>
              a == b || if cutSpan == 0 then elapsed == 0 else cutElapsed * span == elapsed * cutSpan
  {
    LinearAt(rows, i);
    var p, q := Known(Back, rows, i).value, Known(Forward, rows, i).value;
    var a, b := rows[p].value.value, rows[q].value.value;
    var elapsed, span := rows[i].ts - rows[p].ts, rows[q].ts - rows[p].ts;
    var e := SecondsBetween(rows[i].ts as real, rows[p].ts as real);
    var s := SecondsBetween(rows[q].ts as real, rows[p].ts as real);
    hide Linear, SecondsBetween, Known, Interpolate, OnLine;
    if s == 0 { AtStart(a, b, elapsed, span); } else { InterpolateOnLine(a, b, e, s, elapsed, span); }
  }

  lemma AtStart(a: real, b: real, elapsed: int, span: int)
    ensures OnLine(a, b, a, elapsed, span) <==> a == b || elapsed == 0
  {
    if a != b && elapsed != 0 { NotZero(elapsed as real, b - a); }
  }

  lemma NotZero(x: real, y: real)
    requires x != 0.0 && y != 0.0
    ensures x * y != 0.0
  {}

  lemma InterpolateOnLine(a: real, b: real, e: int, s: int, elapsed: int, span: int)
    requires s != 0
    ensures OnLine(a, b, Interpolate(a, b, e, s), elapsed, span) <==> a == b || e * span == elapsed * s
  {
    var d, x := b - a, Interpolate(a, b, e, s) - a;
    InterpolateTimes(a, b, e, s);
    hide Interpolate;
    Reals(e, span, elapsed, s);
    Cancel(x * span as real, elapsed as real * d, s as real);
    Commute(x, span as real, s as real);
    Commute(e as real, d, span as real);
    Commute(elapsed as real, d, s as real);
    if d != 0.0 { Cancel(e as real * span as real, elapsed as real * s as real, d); }
  }

  lemma Reals(e: int, span: int, elapsed: int, s: int)
    ensures e * span == elapsed * s <==> e as real * span as real == elapsed as real * s as real
  {
    assert (e * span) as real == e as real * span as real && (elapsed * s) as real == elapsed as real * s as real;
  }

  lemma Cancel(x: real, y: real, k: real)
    requires k != 0.0
    ensures x * k == y * k <==> x == y
  {
    if x * k == y * k { assert x == (x * k) / k == (y * k) / k == y; }
  }

  lemma Commute(x: real, y: real, z: real)
    ensures x * y * z == x * z * y
  {}

  /** Half a second along one second: 0 where the line has 5. */
  lemma SubSecondExample()
    ensures var rows := [Row(0, 0, Some(0.0)), Row(0, 500000, None), Row(0, 1000000, Some(10.0))];
            Known(Back, rows, 1) == Some(0) && Known(Forward, rows, 1) == Some(2) && Linear(rows, 1) == Some(0.0)
            && !OnLine(0.0, 10.0, 0.0, 500000, 1000000)
  {
    var rows := [Row(0, 0, Some(0.0)), Row(0, 500000, None), Row(0, 1000000, Some(10.0))];
    assert LastKnown(rows, 0, 1) == Some(0) && LastKnown(rows, 0, 2) == Some(0);
    assert NextKnown(rows, 0, 2) == Some(2) && NextKnown(rows, 0, 1) == Some(2);
    LinearAt(rows, 1);
    assert SecondsBetween(500000.0, 0.0) == 0 && SecondsBetween(1000000.0, 0.0) == 1;
  }

  /** Neighbours whole seconds away: the result is always on the line. */
  lemma WholeSecondsOnTheLine<K>(rows: seq<Row<K>>, i: nat, elapsed: nat, span: nat)
    requires i < |rows| && rows[i].value.None?
    requires Known(Back, rows, i).Some? && Known(Forward, rows, i).Some? && elapsed <= span
    requires var p, q := Known(Back, rows, i).value, Known(Forward, rows, i).value;
             && p < |rows| && q < |rows|
             && rows[i].ts == rows[p].ts + 1000000 * elapsed && rows[q].ts == rows[p].ts + 1000000 * span
    ensures var p, q := Known(Back, rows, i).value, Known(Forward, rows, i).value;
            && Linear(rows, i).Some? && rows[p].value.Some? && rows[q].value.Some?
            && var a, b := rows[p].value.value, rows[q].value.value;
            OnLine(a, b, Linear(rows, i).value, 1000000 * elapsed, 1000000 * span)
  {
    LinearOnTheLine(rows, i);
    var p, q := Known(Back, rows, i).value, Known(Forward, rows, i).value;
    WholeSeconds(rows[i].ts, rows[p].ts, elapsed);
    WholeSeconds(rows[q].ts, rows[p].ts, span);
    hide Linear, SecondsBetween, Known, OnLine;
    assert elapsed * (1000000 * span) == (1000000 * elapsed) * span;
  }

  lemma InterpolateTimes(a: real, b: real, elapsed: int, span: int)
    requires span != 0
    ensures OnLine(a, b, Interpolate(a, b, elapsed, span), elapsed, span)
  {}

  lemma WholeSeconds(a: int, b: int, n: nat)
    requires a == b + 1000000 * n
    ensures SecondsBetween(a as real, b as real) == n
  {
    assert a as real - b as real == 1000000.0 * n as real;
  }
}

/**
 SUM(x) OVER (...) for INT64 x. SQLite's sum fails as soon as a running total leaves INT64, while
 GoogleSQL fails only when the result does, so the sum is taken over the 32-bit halves of x and
 recombined.
 */
module WindowSum {
  import opened Sequences

  const TWO_31: int := 0x8000_0000
  const TWO_32: int := 0x1_0000_0000
  const TWO_63: int := 0x8000_0000_0000_0000

  predicate Int64(x: int) {
    -TWO_63 <= x < TWO_63
  }

  /** The non-null values of a frame in the order SQLite steps through them, NULLs included. */
  type Frame = seq<Option<int>>

  predicate Int64Frame(frame: Frame) {
    forall i :: 0 <= i < |frame| && frame[i].Some? ==> Int64(frame[i].value)
  }

  datatype Outcome = Null | Total(n: int) | Overflow

  // ----- SQLite's sum -----

  function Add(acc: Outcome, x: Option<int>): Outcome {
    if x.None? || acc.Overflow? then acc
    else
      var n := (if acc.Total? then acc.n else 0) + x.value;
      if Int64(n) then Total(n) else Overflow
  }

  /** NULLs are skipped; a sum without values is NULL; an overflow at any step is final. */
  function SqliteSum(frame: Frame): Outcome {
    if frame == [] then Null else Add(SqliteSum(frame[..|frame| - 1]), frame[|frame| - 1])
  }

  // ----- the split -----

  /** x >> 32 and x & 0xffffffff on a two's complement INT64. */
  function High(x: int): int { x / TWO_32 }

  function Low(x: int): int { x % TWO_32 }

  function Highs(frame: Frame): Frame {
    seq(|frame|, i requires 0 <= i < |frame| => if frame[i].Some? then Some(High(frame[i].value)) else None)
  }

  function Lows(frame: Frame): Frame {
    seq(|frame|, i requires 0 <= i < |frame| => if frame[i].Some? then Some(Low(frame[i].value)) else None)
  }

  /**
   The SQL function that rebuilds the total: the number whose halves were summed when it is an INT64, and
   otherwise an error, or NULL in the safe variant. A failed half-sum has aborted the statement before.
   */
  method Int64SumCombine(hi: Outcome, lo: Outcome, safe: bool) returns (r: Outcome)
    requires !hi.Overflow? && !lo.Overflow?
    requires lo.Total? && hi.Total? ==> Int64(hi.n + High(lo.n))
    ensures hi.Null? || lo.Null? ==> r == Null
    ensures hi.Total? && lo.Total? && Int64(hi.n * TWO_32 + lo.n) ==> r == Total(hi.n * TWO_32 + lo.n)
    ensures hi.Total? && lo.Total? && !Int64(hi.n * TWO_32 + lo.n) ==> r == if safe then Null else Overflow
    ensures !safe ==> r == Combine(hi, lo)
  {
    if hi.Null? || lo.Null? { return Null; }
    var h, l := hi.n, lo.n;
    Recombine(h, l);
    h := h + l / TWO_32;
    l := l % TWO_32;
    if h > TWO_31 - 1 || h < -TWO_31 { return if safe then Null else Overflow; }
    return Total(h * TWO_32 + l);
  }

  function Combine(hi: Outcome, lo: Outcome): Outcome {
    if hi.Overflow? || lo.Overflow? then Overflow
    else if hi.Null? || lo.Null? then Null
    else
      var h := hi.n + High(lo.n);
      if -TWO_31 <= h < TWO_31 then Total(h * TWO_32 + Low(lo.n)) else Overflow
  }

  function SplitSum(frame: Frame): Outcome {
    Combine(SqliteSum(Highs(frame)), SqliteSum(Lows(frame)))
  }

  // ----- GoogleSQL's sum -----

  function ExactSum(frame: Frame): int {
    if frame == [] then 0
    else
      var last := frame[|frame| - 1];
      ExactSum(frame[..|frame| - 1]) + (if last.Some? then last.value else 0)
  }

  predicate AllNull(frame: Frame) {
    forall i :: 0 <= i < |frame| ==> frame[i].None?
  }

  function GoogleSum(frame: Frame): Outcome {
    if AllNull(frame) then Null else if Int64(ExactSum(frame)) then Total(ExactSum(frame)) else Overflow
  }

  // ----- the split sum is the exact sum -----

  lemma SnocFrame(frame: Frame)
    requires frame != []
    ensures var init, last := frame[..|frame| - 1], frame[|frame| - 1];
            && (AllNull(frame) <==> AllNull(init) && last.None?)
            && Highs(frame)[..|frame| - 1] == Highs(init)
            && Lows(frame)[..|frame| - 1] == Lows(init)
            && (Int64Frame(frame) ==> Int64Frame(init))
  {
    assert frame == frame[..|frame| - 1] + [frame[|frame| - 1]];
  }

  /** Half-sums that hold `exact` over n values of a frame. */
  predicate Halves(hi: Outcome, lo: Outcome, allNull: bool, exact: int, n: nat) {
    if allNull then hi == lo == Null && exact == 0
    else
      && hi.Total? && lo.Total?
      && -TWO_31 * n <= hi.n <= (TWO_31 - 1) * n
      && 0 <= lo.n <= (TWO_32 - 1) * n
      && hi.n * TWO_32 + lo.n == exact
  }

  lemma HalvesStep(hi: Outcome, lo: Outcome, allNull: bool, exact: int, n: nat, x: int)
    requires Halves(hi, lo, allNull, exact, n) && n < TWO_31 && Int64(x)
    ensures Halves(Add(hi, Some(High(x))), Add(lo, Some(Low(x))), false, exact + x, n + 1)
  {
    assert x == High(x) * TWO_32 + Low(x) && 0 <= Low(x) < TWO_32 && -TWO_31 <= High(x) < TWO_31;
  }

  /** Both half-sums stay within INT64 up to 2^31 values, and together hold the exact sum. */
  lemma {:induction false} HalfSums(frame: Frame)
    requires Int64Frame(frame) && |frame| <= TWO_31
    ensures Halves(SqliteSum(Highs(frame)), SqliteSum(Lows(frame)), AllNull(frame), ExactSum(frame), |frame|)
    decreases |frame|
  {
    if frame != [] {
      var init, last := frame[..|frame| - 1], frame[|frame| - 1];
      SnocFrame(frame);
      HalfSums(init);
      var hi, lo := SqliteSum(Highs(init)), SqliteSum(Lows(init));
      assert SqliteSum(Highs(frame)) == Add(hi, if last.Some? then Some(High(last.value)) else None);
      assert SqliteSum(Lows(frame)) == Add(lo, if last.Some? then Some(Low(last.value)) else None);
      if last.Some? { HalvesStep(hi, lo, AllNull(init), ExactSum(init), |init|, last.value); }
    }
  }

  /**
   For every frame of up to 2^31 INT64 values neither half-sum leaves INT64, nor does the carry
   from the low to the high half, the combined result is the exact sum, and it is an error
   exactly when the exact sum is outside INT64.
   */
  lemma SplitSumIsExact(frame: Frame)
    requires Int64Frame(frame) && |frame| <= TWO_31
    ensures var hi, lo := SqliteSum(Highs(frame)), SqliteSum(Lows(frame));
            && !hi.Overflow? && !lo.Overflow?
            && (hi.Total? && lo.Total? ==> Int64(hi.n + High(lo.n)))
    ensures SplitSum(frame) == GoogleSum(frame)
  {
    HalfSums(frame);
    var hi, lo := SqliteSum(Highs(frame)), SqliteSum(Lows(frame));
    if !AllNull(frame) { Recombine(hi.n, lo.n); }
  }

  lemma Recombine(h: int, l: int)
    ensures (h + High(l)) * TWO_32 + Low(l) == h * TWO_32 + l
    ensures -TWO_31 <= h + High(l) < TWO_31 <==> Int64(h * TWO_32 + l)
  {
    assert l == High(l) * TWO_32 + Low(l) && 0 <= Low(l) < TWO_32;
  }

  function Repeat(n: nat, x: int): Frame {
    seq(n, i requires 0 <= i < n => Some(x))
  }

  lemma {:induction false} RepeatedLow(n: nat)
    requires n <= TWO_31
    ensures SqliteSum(Lows(Repeat(n, -1))) == if n == 0 then Null else Total((TWO_32 - 1) * n)
  {
    if n > 0 {
      RepeatedLow(n - 1);
      var frame := Repeat(n, -1);
      assert Lows(frame)[..n - 1] == Lows(Repeat(n - 1, -1));
      assert Lows(frame)[n - 1] == Some(TWO_32 - 1);
    }
  }

  /** The bound is tight: one more value, and the low halves overflow although the exact sum is small. */
  lemma BoundIsTight()
    ensures var frame := Repeat(TWO_31 + 1, -1);
            Int64Frame(frame) && SqliteSum(Lows(frame)) == Overflow
  {
    var n: nat := TWO_31 + 1;
    var frame := Repeat(n, -1);
    RepeatedLow(n - 1);
    assert Lows(frame)[..n - 1] == Lows(Repeat(n - 1, -1));
    assert Lows(frame)[n - 1] == Some(TWO_32 - 1);
  }

  // ----- ROWS BETWEEN UNBOUNDED PRECEDING AND CURRENT ROW -----

  /** SQLite's sum is exact until some prefix overflows. */
  lemma {:induction false} PlainSum(frame: Frame)
    requires Int64Frame(frame)
    ensures SqliteSum(frame) == Overflow <==> exists k :: 0 <= k <= |frame| && !Int64(ExactSum(frame[..k]))
    ensures SqliteSum(frame) != Overflow ==> SqliteSum(frame) == GoogleSum(frame)
    ensures AllNull(frame) ==> ExactSum(frame) == 0
    decreases |frame|
  {
    assert frame[..|frame|] == frame;
    if frame != [] {
      var n := |frame| - 1;
      var init := frame[..n];
      SnocFrame(frame);
      PlainSum(init);
      assert forall k :: 0 <= k <= n ==> init[..k] == frame[..k];
      if k :| 0 <= k <= n && !Int64(ExactSum(init[..k])) {
        assert !Int64(ExactSum(frame[..k]));
      }
      if k :| 0 <= k <= n + 1 && !Int64(ExactSum(frame[..k])) {
        if k <= n { assert !Int64(ExactSum(init[..k])); }
      }
    } else {
      assert Int64(0);
    }
  }

  /** The sums of the output row i of a running frame. */
  function SqliteAt(values: Frame, i: nat): Outcome
    requires i < |values|
  {
    SqliteSum(values[..i + 1])
  }

  function GoogleAt(values: Frame, i: nat): Outcome
    requires i < |values|
  {
    GoogleSum(values[..i + 1])
  }

  lemma RowAgrees(values: Frame, i: nat)
    requires Int64Frame(values) && i < |values|
    ensures GoogleAt(values, i) == Overflow ==> SqliteAt(values, i) == Overflow
    ensures SqliteAt(values, i) != Overflow ==> SqliteAt(values, i) == GoogleAt(values, i)
    ensures SqliteAt(values, i) == Overflow ==> exists j: nat :: j <= i && GoogleAt(values, j) == Overflow
  {
    var frame := values[..i + 1];
    PlainSum(frame);
    if SqliteSum(frame) == Overflow {
      var k :| 0 <= k <= |frame| && !Int64(ExactSum(frame[..k]));
      assert frame[..k] == values[..k];
      PlainSum(values[..k]);
      var j: nat := k - 1;
      assert GoogleAt(values, j) == Overflow;
    }
  }

  /**
   In a running frame every prefix is an output row, so the plain sum fails exactly when some
   output sum overflows in GoogleSQL, and otherwise every output is GoogleSQL's.
   */
  lemma RunningSumAgrees(values: Frame)
    requires Int64Frame(values)
    ensures (exists i: nat :: i < |values| && SqliteAt(values, i) == Overflow) <==>
            (exists i: nat :: i < |values| && GoogleAt(values, i) == Overflow)
    ensures (forall i: nat :: i < |values| ==> GoogleAt(values, i) != Overflow) ==>
              forall i: nat :: i < |values| ==> SqliteAt(values, i) == GoogleAt(values, i)
  {
    forall i: nat | i < |values|
      ensures GoogleAt(values, i) == Overflow ==> SqliteAt(values, i) == Overflow
      ensures SqliteAt(values, i) != Overflow ==> SqliteAt(values, i) == GoogleAt(values, i)
      ensures SqliteAt(values, i) == Overflow ==> exists j: nat :: j <= i && GoogleAt(values, j) == Overflow
    {
      RowAgrees(values, i);
    }
  }
}

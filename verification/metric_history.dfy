/**
 * The history ring buffer of one depth-quality metric (metric_plot) and the
 * trend heuristic that runs over it.
 *
 * A plot keeps the last SIZE samples of its metric in a circular buffer
 * `vals` with write cursor `idx`: the next sample goes to slot `idx`, so slot
 * `idx` holds the oldest retained sample and slot `idx - 1` (mod SIZE) the
 * newest one.
 */
module MetricHistory {
  import opened Basics

  /** Capacity of every metric's history buffer. */
  const SIZE: int := 100
  /** Number of window positions averaged into the short-window reference. */
  const CURR_WINDOW: int := 10
  /** Last window position visited by the long window (inclusive). */
  const WINDOW_SIZE: int := 110

  /** One of a metric's pass/warn/fail ranges; `x` and `y` are its two bounds. */
  datatype Range = Range(x: real, y: real)

  /** The value of a plot as the CSV export and the current-value readout see it. */
  datatype History = History(name: string, vals: seq<real>, idx: int)
  {
    ghost predicate WellFormed() {
      |vals| == SIZE && 0 <= idx < SIZE
    }
  }

  // ---------------------------------------------------------------------
  // Slot arithmetic

  /**
   * The slot has_trend reads for window position `i`: `i` writes back from
   * the cursor. The index is taken with Euclidean `%`.
   */
  function TrendSlot(idx: int, i: int): (s: int)
    ensures 0 <= s < SIZE
    ensures (s + i - idx) % SIZE == 0
  {
    (SIZE + idx - i) % SIZE
  }

  /** C++ `%` on signed ints: the remainder takes the sign of the dividend. */
  function TruncatingRem(a: int, m: int): (r: int)
    requires m > 0
    ensures -m < r < m
    ensures a >= 0 ==> r == a % m
    ensures a < 0 ==> r <= 0 && (-m < a ==> r == a)
  {
    if a >= 0 then a % m else -((-a) % m)
  }

  /**
   * has_trend's slot expression `(SIZE + _idx - i) % SIZE` with `%` on
   * signed ints. It agrees with TrendSlot while `SIZE + _idx - i` is not
   * negative.
   */
  function TrendSlotAsWritten(idx: int, i: int): (s: int)
    ensures SIZE + idx - i >= 0 ==> s == TrendSlot(idx, i)
  {
    TruncatingRem(SIZE + idx - i, SIZE)
  }

  /**
   * For a cursor below CURR_WINDOW, the long window's last positions give a
   * negative index: at cursor 0, position 101 reads index -1, where the ring
   * buffer's slot is 99.
   */
  lemma TrendSlotAsWrittenNegative()
    ensures TrendSlotAsWritten(0, 101) == -1 && TrendSlot(0, 101) == 99
    ensures forall idx, i :: 0 <= idx < CURR_WINDOW && SIZE + idx < i <= WINDOW_SIZE ==>
              TrendSlotAsWritten(idx, i) == SIZE + idx - i < 0
  {
  }

  /** The slot whose value the plot shows as its current value. */
  function CurrentIndex(idx: int): (k: int)
    requires 0 <= idx < SIZE
    ensures 0 <= k < SIZE
    ensures (k + 1) % SIZE == idx
  {
    (SIZE + idx - 1) % SIZE
  }

  /**
   * The slots of has_trend's windows, in terms of the buffer's age order:
   * position 0 is slot `idx`, the OLDEST sample (not the newest), position 1
   * is the current value's slot, positions 1..9 are the nine newest samples,
   * and the long window's first and last positions (10 and 110) are the
   * same slot.
   */
  lemma TrendWindowSlots(idx: int)
    requires 0 <= idx < SIZE
    ensures TrendSlot(idx, 0) == idx
    ensures TrendSlot(idx, 1) == CurrentIndex(idx)
    ensures TrendSlot(idx, CURR_WINDOW) == TrendSlot(idx, WINDOW_SIZE)
  {
  }

  /** Window positions less than SIZE apart read different slots. */
  lemma TrendSlotsDistinct(idx: int, i: int, j: int)
    requires 0 <= i < j < i + SIZE
    ensures TrendSlot(idx, i) != TrendSlot(idx, j)
  {
    var si, sj := TrendSlot(idx, i), TrendSlot(idx, j);
    var qi, qj := (SIZE + idx - i) / SIZE, (SIZE + idx - j) / SIZE;
    assert SIZE + idx - i == qi * SIZE + si;
    assert SIZE + idx - j == qj * SIZE + sj;
    assert (j - i) == (qi - qj) * SIZE + (si - sj);
  }

  // ---------------------------------------------------------------------
  // Trend heuristic (has_trend) as a specification

  /** The reference value deviations are measured from. */
  function Best(green: Range, red: Range): real
  {
    if red.x < green.x then green.y else green.x
  }

  /** `|best - sample|` at window position `i`. */
  function Deviation(vals: seq<real>, idx: int, best: real, i: int): (d: real)
    requires |vals| == SIZE
    ensures d >= 0.0
  {
    Abs(best - vals[TrendSlot(idx, i)])
  }

  /** The short-window accumulator after its first `n` steps: the sum of d_i / 10 for i < n. */
  function ShortSum(vals: seq<real>, idx: int, best: real, n: nat): real
    requires |vals| == SIZE
  {
    if n == 0 then 0.0
    else ShortSum(vals, idx, best, n - 1) + Deviation(vals, idx, best, n - 1) / CURR_WINDOW as real
  }

  /** Whether one long-window sample counts toward the trend in the asked direction. */
  predicate Improves(positive: bool, minVal: real, d: real)
  {
    (positive && minVal < d * 0.8) || (!positive && minVal * 0.8 > d)
  }

  /** Number of window positions in [lo, hi) whose sample counts toward the trend. */
  function ImprovedCount(vals: seq<real>, idx: int, best: real, minVal: real, positive: bool, lo: int, hi: int): nat
    requires |vals| == SIZE && lo <= hi
    decreases hi - lo
  {
    if lo == hi then 0
    else ImprovedCount(vals, idx, best, minVal, positive, lo, hi - 1)
         + (if Improves(positive, minVal, Deviation(vals, idx, best, hi - 1)) then 1 else 0)
  }

  /** The mean deviation over the short window (has_trend's `min_val`). */
  function ShortMean(vals: seq<real>, idx: int, green: Range, red: Range): real
    requires |vals| == SIZE
  {
    ShortSum(vals, idx, Best(green, red), CURR_WINDOW)
  }

  /** The number of long-window positions 10..110 that count (has_trend's `improved`). */
  function TrendCount(vals: seq<real>, idx: int, green: Range, red: Range, positive: bool): nat
    requires |vals| == SIZE
  {
    var best := Best(green, red);
    ImprovedCount(vals, idx, best, ShortMean(vals, idx, green, red), positive, CURR_WINDOW, WINDOW_SIZE + 1)
  }

  /** has_trend's verdict. */
  predicate HasTrendSpec(vals: seq<real>, idx: int, green: Range, red: Range, positive: bool)
    requires |vals| == SIZE
  {
    TrendCount(vals, idx, green, red, positive) as real > WINDOW_SIZE as real * 0.4
  }

  // ---------------------------------------------------------------------
  // Properties of the trend heuristic

  /** The set of window positions in [lo, hi) whose sample counts. */
  ghost function ImprovingPositions(vals: seq<real>, idx: int, best: real, minVal: real, positive: bool, lo: int, hi: int): set<int>
    requires |vals| == SIZE
  {
    set i | lo <= i < hi && Improves(positive, minVal, Deviation(vals, idx, best, i))
  }

  /** Extending [lo, hi) by one position adds that position exactly when it counts. */
  lemma ImprovingPositionsStep(vals: seq<real>, idx: int, best: real, minVal: real, positive: bool, lo: int, hi: int)
    requires |vals| == SIZE && lo < hi
    ensures var prev := ImprovingPositions(vals, idx, best, minVal, positive, lo, hi - 1);
      ImprovingPositions(vals, idx, best, minVal, positive, lo, hi)
      == if Improves(positive, minVal, Deviation(vals, idx, best, hi - 1)) then prev + {hi - 1} else prev
  {
  }

  /** The recursive count is the size of the set of counting positions. */
  lemma {:induction false} ImprovedCountIsCardinality(vals: seq<real>, idx: int, best: real, minVal: real, positive: bool, lo: int, hi: int)
    requires |vals| == SIZE && lo <= hi
    ensures ImprovedCount(vals, idx, best, minVal, positive, lo, hi)
            == |ImprovingPositions(vals, idx, best, minVal, positive, lo, hi)|
    decreases hi - lo
  {
    if lo < hi {
      ImprovedCountIsCardinality(vals, idx, best, minVal, positive, lo, hi - 1);
      ImprovingPositionsStep(vals, idx, best, minVal, positive, lo, hi);
      assert hi - 1 !in ImprovingPositions(vals, idx, best, minVal, positive, lo, hi - 1);
    } else {
      assert ImprovingPositions(vals, idx, best, minVal, positive, lo, hi) == {};
    }
  }

  /**
   * has_trend answers true exactly when more than 44 of the 101 long-window
   * positions 10..110 count, for the short-window mean as reference.
   */
  lemma HasTrendMeaning(vals: seq<real>, idx: int, green: Range, red: Range, positive: bool)
    requires |vals| == SIZE
    ensures HasTrendSpec(vals, idx, green, red, positive)
            <==> |ImprovingPositions(vals, idx, Best(green, red), ShortMean(vals, idx, green, red), positive,
                                     CURR_WINDOW, WINDOW_SIZE + 1)| > 44
  {
    ImprovedCountIsCardinality(vals, idx, Best(green, red), ShortMean(vals, idx, green, red), positive,
                               CURR_WINDOW, WINDOW_SIZE + 1);
  }

  /** The short-window accumulator never goes negative. */
  lemma {:induction false} ShortSumNonNegative(vals: seq<real>, idx: int, best: real, n: nat)
    requires |vals| == SIZE
    ensures ShortSum(vals, idx, best, n) >= 0.0
  {
    if n > 0 {
      ShortSumNonNegative(vals, idx, best, n - 1);
    }
  }

  /**
   * With a non-negative reference no sample counts in both directions, so
   * the positive and the negative counts over [lo, hi) add up to at most hi - lo.
   */
  lemma {:induction false} ImprovedCountsDisjoint(vals: seq<real>, idx: int, best: real, minVal: real, lo: int, hi: int)
    requires |vals| == SIZE && lo <= hi && minVal >= 0.0
    ensures ImprovedCount(vals, idx, best, minVal, true, lo, hi)
            + ImprovedCount(vals, idx, best, minVal, false, lo, hi) <= hi - lo
    decreases hi - lo
  {
    if lo < hi {
      ImprovedCountsDisjoint(vals, idx, best, minVal, lo, hi - 1);
      var d := Deviation(vals, idx, best, hi - 1);
      assert !(Improves(true, minVal, d) && Improves(false, minVal, d));
    }
  }

  /** No long-window position counts toward both trend directions. */
  lemma TrendCountsDisjoint(vals: seq<real>, idx: int, green: Range, red: Range)
    requires |vals| == SIZE
    ensures TrendCount(vals, idx, green, red, true) + TrendCount(vals, idx, green, red, false)
            <= WINDOW_SIZE + 1 - CURR_WINDOW
  {
    ShortSumNonNegative(vals, idx, Best(green, red), CURR_WINDOW as nat);
    ImprovedCountsDisjoint(vals, idx, Best(green, red), ShortMean(vals, idx, green, red), CURR_WINDOW, WINDOW_SIZE + 1);
  }

  /** When every sample deviates by `d`, the accumulator after n steps is n * d / 10. */
  lemma {:induction false} ShortSumOfConstant(vals: seq<real>, idx: int, best: real, d: real, n: nat)
    requires |vals| == SIZE
    requires forall s :: 0 <= s < SIZE ==> Abs(best - vals[s]) == d
    ensures ShortSum(vals, idx, best, n) == n as real * d / CURR_WINDOW as real
  {
    if n > 0 {
      ShortSumOfConstant(vals, idx, best, d, n - 1);
    }
  }

  /** No sample counts when its deviation equals a non-negative reference. */
  lemma {:induction false} NoImprovementAtReference(vals: seq<real>, idx: int, best: real, minVal: real, positive: bool, lo: int, hi: int)
    requires |vals| == SIZE && lo <= hi && minVal >= 0.0
    requires forall s :: 0 <= s < SIZE ==> Abs(best - vals[s]) == minVal
    ensures ImprovedCount(vals, idx, best, minVal, positive, lo, hi) == 0
    decreases hi - lo
  {
    if lo < hi {
      NoImprovementAtReference(vals, idx, best, minVal, positive, lo, hi - 1);
    }
  }

  /** A constant buffer shows neither a positive nor a negative trend. */
  lemma ConstantBufferHasNoTrend(vals: seq<real>, idx: int, green: Range, red: Range)
    requires |vals| == SIZE
    requires forall s :: 0 <= s < SIZE ==> vals[s] == vals[0]
    ensures !HasTrendSpec(vals, idx, green, red, true)
    ensures !HasTrendSpec(vals, idx, green, red, false)
  {
    var best := Best(green, red);
    var d := Abs(best - vals[0]);
    ShortSumOfConstant(vals, idx, best, d, CURR_WINDOW as nat);
    assert ShortMean(vals, idx, green, red) == d;
    NoImprovementAtReference(vals, idx, best, d, true, CURR_WINDOW, WINDOW_SIZE + 1);
    NoImprovementAtReference(vals, idx, best, d, false, CURR_WINDOW, WINDOW_SIZE + 1);
  }

  /** Every position in [lo, hi) counts, so the count is hi - lo. */
  lemma {:induction false} ImprovedCountAll(vals: seq<real>, idx: int, best: real, minVal: real, positive: bool, lo: int, hi: int)
    requires |vals| == SIZE && lo <= hi
    requires forall i :: lo <= i < hi ==> Improves(positive, minVal, Deviation(vals, idx, best, i))
    ensures ImprovedCount(vals, idx, best, minVal, positive, lo, hi) == hi - lo
    decreases hi - lo
  {
    if lo < hi {
      ImprovedCountAll(vals, idx, best, minVal, positive, lo, hi - 1);
    }
  }

  /** Counting over a longer range never gives a smaller count. */
  lemma {:induction false} ImprovedCountMonotone(vals: seq<real>, idx: int, best: real, minVal: real, positive: bool, lo: int, mid: int, hi: int)
    requires |vals| == SIZE && lo <= mid <= hi
    ensures ImprovedCount(vals, idx, best, minVal, positive, lo, mid)
            <= ImprovedCount(vals, idx, best, minVal, positive, lo, hi)
    decreases hi - mid
  {
    if mid < hi {
      ImprovedCountMonotone(vals, idx, best, minVal, positive, lo, mid, hi - 1);
    }
  }

  /**
   * The short-window positions 0..9 are slot `idx` (the OLDEST sample) and
   * the nine newest samples. When exactly those ten slots hold the best value
   * and the slots at positions 10..99 do not, has_trend(true) holds and
   * has_trend(false) does not.
   */
  lemma ShortWindowOnBestTrendsUp(vals: seq<real>, idx: int, green: Range, red: Range)
    requires |vals| == SIZE && 0 <= idx < SIZE
    requires forall i :: 0 <= i < CURR_WINDOW ==> vals[TrendSlot(idx, i)] == Best(green, red)
    requires forall i :: CURR_WINDOW <= i < SIZE ==> vals[TrendSlot(idx, i)] != Best(green, red)
    ensures HasTrendSpec(vals, idx, green, red, true)
    ensures !HasTrendSpec(vals, idx, green, red, false)
  {
    var best := Best(green, red);
    ShortSumZero(vals, idx, best, CURR_WINDOW as nat);
    var m := ShortMean(vals, idx, green, red);
    assert m == 0.0;
    forall i | CURR_WINDOW <= i < SIZE
      ensures Improves(true, m, Deviation(vals, idx, best, i))
    {
      assert Deviation(vals, idx, best, i) > 0.0;
    }
    ImprovedCountAll(vals, idx, best, m, true, CURR_WINDOW, SIZE);
    ImprovedCountMonotone(vals, idx, best, m, true, CURR_WINDOW, SIZE, WINDOW_SIZE + 1);
    ImprovedCountNoneBelowZero(vals, idx, best, CURR_WINDOW, WINDOW_SIZE + 1);
  }

  /** The slot of the sample written `a` samples before the newest one (age 0 is the current value). */
  function AgeSlot(idx: int, a: int): (s: int)
    ensures 0 <= s < SIZE
    ensures (s + a + 1 - idx) % SIZE == 0
  {
    (idx - 1 - a) % SIZE
  }

  /**
   * Window position i reads the sample of age i - 1 for 1 <= i <= SIZE;
   * position 0 reads the oldest sample (age SIZE - 1), and positions past
   * SIZE read ages 0, 1, ... again.
   */
  lemma TrendSlotAge(idx: int, i: int)
    requires 0 <= i <= WINDOW_SIZE
    ensures TrendSlot(idx, i) == AgeSlot(idx, (i + SIZE - 1) % SIZE)
  {
    if i == 0 {
      assert (i + SIZE - 1) % SIZE == SIZE - 1;
    } else if i <= SIZE {
      assert (i + SIZE - 1) % SIZE == i - 1;
    } else {
      assert (i + SIZE - 1) % SIZE == i - SIZE - 1;
    }
  }

  /** Counting over [lo, hi) is counting over [lo, mid) and then over [mid, hi). */
  lemma {:induction false} ImprovedCountSplit(vals: seq<real>, idx: int, best: real, minVal: real, positive: bool, lo: int, mid: int, hi: int)
    requires |vals| == SIZE && lo <= mid <= hi
    ensures ImprovedCount(vals, idx, best, minVal, positive, lo, hi)
            == ImprovedCount(vals, idx, best, minVal, positive, lo, mid)
               + ImprovedCount(vals, idx, best, minVal, positive, mid, hi)
    decreases hi - mid
  {
    if mid < hi {
      ImprovedCountSplit(vals, idx, best, minVal, positive, lo, mid, hi - 1);
    }
  }

  /** No position in [lo, hi) counts, so the count is 0. */
  lemma {:induction false} ImprovedCountNone(vals: seq<real>, idx: int, best: real, minVal: real, positive: bool, lo: int, hi: int)
    requires |vals| == SIZE && lo <= hi
    requires forall i :: lo <= i < hi ==> !Improves(positive, minVal, Deviation(vals, idx, best, i))
    ensures ImprovedCount(vals, idx, best, minVal, positive, lo, hi) == 0
    decreases hi - lo
  {
    if lo < hi {
      ImprovedCountNone(vals, idx, best, minVal, positive, lo, hi - 1);
    }
  }

  /** While only position 0 of the short window deviates, the accumulator is that deviation over 10. */
  lemma {:induction false} ShortSumFirstOnly(vals: seq<real>, idx: int, best: real, n: nat)
    requires |vals| == SIZE && 1 <= n <= CURR_WINDOW
    requires forall i :: 1 <= i < CURR_WINDOW ==> Deviation(vals, idx, best, i) == 0.0
    ensures ShortSum(vals, idx, best, n) == Deviation(vals, idx, best, 0) / CURR_WINDOW as real
  {
    if n > 1 {
      ShortSumFirstOnly(vals, idx, best, n - 1);
    }
  }

  /**
   * A metric that has approached its best value trends up: when the ten
   * newest samples sit on the best value and every older sample is off by
   * the same D > 0, 90 of the long-window positions count toward a positive
   * trend and 11 toward a negative one, so has_trend(true) holds and
   * has_trend(false) does not.
   */
  lemma ApproachToBestTrendsUp(vals: seq<real>, idx: int, green: Range, red: Range, D: real)
    requires |vals| == SIZE && 0 <= idx < SIZE && D > 0.0
    requires forall a :: 0 <= a < SIZE ==>
               Abs(Best(green, red) - vals[AgeSlot(idx, a)]) == if a < CURR_WINDOW then 0.0 else D
    ensures TrendCount(vals, idx, green, red, true) == 90
    ensures TrendCount(vals, idx, green, red, false) == 11
    ensures HasTrendSpec(vals, idx, green, red, true)
    ensures !HasTrendSpec(vals, idx, green, red, false)
  {
    var best := Best(green, red);
    forall i | 0 <= i <= WINDOW_SIZE
      ensures Deviation(vals, idx, best, i) == if 1 <= i <= CURR_WINDOW || SIZE < i then 0.0 else D
    {
      TrendSlotAge(idx, i);
    }
    ShortSumFirstOnly(vals, idx, best, CURR_WINDOW as nat);
    var m := ShortMean(vals, idx, green, red);
    assert m == D / 10.0;
    var lo, hi := CURR_WINDOW, WINDOW_SIZE + 1;
    ImprovedCountSplit(vals, idx, best, m, true, lo, lo + 1, hi);
    ImprovedCountSplit(vals, idx, best, m, true, lo + 1, SIZE + 1, hi);
    ImprovedCountNone(vals, idx, best, m, true, lo, lo + 1);
    ImprovedCountAll(vals, idx, best, m, true, lo + 1, SIZE + 1);
    ImprovedCountNone(vals, idx, best, m, true, SIZE + 1, hi);
    ImprovedCountSplit(vals, idx, best, m, false, lo, lo + 1, hi);
    ImprovedCountSplit(vals, idx, best, m, false, lo + 1, SIZE + 1, hi);
    ImprovedCountAll(vals, idx, best, m, false, lo, lo + 1);
    ImprovedCountNone(vals, idx, best, m, false, lo + 1, SIZE + 1);
    ImprovedCountAll(vals, idx, best, m, false, SIZE + 1, hi);
  }

  /** The accumulator is zero while the short window only reads the best value. */
  lemma {:induction false} ShortSumZero(vals: seq<real>, idx: int, best: real, n: nat)
    requires |vals| == SIZE && n <= CURR_WINDOW
    requires forall i :: 0 <= i < CURR_WINDOW ==> vals[TrendSlot(idx, i)] == best
    ensures ShortSum(vals, idx, best, n) == 0.0
  {
    if n > 0 {
      ShortSumZero(vals, idx, best, n - 1);
    }
  }

  /** With a zero reference nothing counts toward a negative trend. */
  lemma {:induction false} ImprovedCountNoneBelowZero(vals: seq<real>, idx: int, best: real, lo: int, hi: int)
    requires |vals| == SIZE && lo <= hi
    ensures ImprovedCount(vals, idx, best, 0.0, false, lo, hi) == 0
    decreases hi - lo
  {
    if lo < hi {
      ImprovedCountNoneBelowZero(vals, idx, best, lo, hi - 1);
    }
  }

  // ---------------------------------------------------------------------
  // The plot object

  /** One metric's plot: its history buffer, write cursor and ranges. */
  class MetricPlot {
    var name: string
    var vals: array<real>
    var idx: int
    var green: Range
    /** Read only by get_range, which is not part of this model. */
    var yellow: Range
    var red: Range

    ghost predicate Valid()
      reads this
    {
      vals.Length == SIZE && 0 <= idx < SIZE
    }

    /** The plot's buffer as a value. */
    function Snapshot(): (h: History)
      reads this, vals
      requires Valid()
      ensures h.WellFormed()
    {
      History(name, vals[..], idx)
    }

    /**
     * A plot holding the given samples with the given cursor. How the metrics
     * worker fills the buffer (add_value) is not part of this model.
     */
    constructor (name: string, samples: seq<real>, idx: int, green: Range, yellow: Range, red: Range)
      requires |samples| == SIZE && 0 <= idx < SIZE
      ensures Valid() && fresh(vals)
      ensures Snapshot() == History(name, samples, idx)
      ensures this.green == green && this.yellow == yellow && this.red == red
    {
      this.name := name;
      this.idx := idx;
      this.green, this.yellow, this.red := green, yellow, red;
      vals := new real[SIZE](i requires 0 <= i < SIZE => samples[i]);
    }

    /**
     * Whether the metric's recent samples are closer to (`positive`) or
     * further from (`!positive`) its best value than the long window's.
     * Reads the buffer and the ranges only.
     */
    method HasTrend(positive: bool) returns (trend: bool)
      requires Valid()
      ensures trend == HasTrendSpec(vals[..], idx, green, red, positive)
    {
      var best := green.x;
      if red.x < green.x {
        best := green.y;
      }

      var minVal := 0.0;
      var i := 0;
      while i < CURR_WINDOW
        invariant 0 <= i <= CURR_WINDOW
        invariant minVal == ShortSum(vals[..], idx, best, i)
      {
        var val := Abs(best - vals[(SIZE + idx - i) % SIZE]);
        minVal := minVal + val / CURR_WINDOW as real;
        i := i + 1;
      }

      var improved := 0;
      i := CURR_WINDOW;
      while i <= WINDOW_SIZE
        invariant CURR_WINDOW <= i <= WINDOW_SIZE + 1
        invariant improved == ImprovedCount(vals[..], idx, best, minVal, positive, CURR_WINDOW, i)
      {
        var val := Abs(best - vals[(SIZE + idx - i) % SIZE]);
        if positive && minVal < val * 0.8 {
          improved := improved + 1;
        }
        if !positive && minVal * 0.8 > val {
          improved := improved + 1;
        }
        i := i + 1;
      }
      trend := improved as real > WINDOW_SIZE as real * 0.4;
    }

    /** The value shown next to the metric's label. */
    function Current(): (v: real)
      reads this, vals
      requires Valid()
      ensures (CurrentIndex(idx) + 1) % SIZE == idx && v == vals[CurrentIndex(idx)]
    {
      vals[(SIZE + idx - 1) % SIZE]
    }
  }
}

/**
 Metric ranges: the query step chosen for a duration, the points a provider emits for
 it, and the thinning of longer series to 600 points.
 */
module MetricRange {
  const MAX_POINTS := 600
  const INTERVALS := MAX_POINTS - 1
  const SECOND := 1_000_000_000

  /** Division and remainder of Go, which truncate towards zero. */
  function Quotient(a: int, b: int): int
    requires b > 0
  {
    if a >= 0 then a / b else -(-a / b)
  }

  function Remainder(a: int, b: int): int
    requires b > 0
  {
    a - b * Quotient(a, b)
  }

  // ---------------------------------------------------------------------------
  // The step

  function RangeStep(duration: int): int {
    var step := Quotient(duration, INTERVALS);
    if Remainder(duration, INTERVALS) != 0 then step + 1 else step
  }

  /** The least step of which 599 cover the duration. */
  ghost predicate IsLeastStep(duration: int, step: int) {
    INTERVALS * step >= duration && forall s: int | s < step :: INTERVALS * s < duration
  }

  /** Truncation makes the step too long exactly for negative durations that are no multiple of 599. */
  lemma {:induction false} RangeStepIsLeast(duration: int)
    ensures IsLeastStep(duration, RangeStep(duration)) <==> duration >= 0 || duration % INTERVALS == 0
    ensures duration > 0 ==> RangeStep(duration) > 0
  {
    var step := RangeStep(duration);
    if duration < 0 {
      var up := -duration;
      assert up == INTERVALS * (up / INTERVALS) + up % INTERVALS;
      NegativeMultiple(up);
      if up % INTERVALS != 0 {
        assert INTERVALS * (step - 1) >= duration;
      }
    }
  }

  lemma NegativeMultiple(up: int)
    requires up > 0
    ensures (-up) % INTERVALS == 0 <==> up % INTERVALS == 0
  {
  }

  // ---------------------------------------------------------------------------
  // Emitted points

  /** The first n times of a range. */
  function Ticks(start: int, step: int, n: nat): seq<int> {
    seq(n, i => start + i * step)
  }

  /** The points a provider emits, as times: none for an empty step or a reversed range. */
  method EmitPoints(start: int, end: int, step: int) returns (points: seq<int>)
    ensures step <= 0 || end < start ==> points == []
    ensures step > 0 && start <= end ==> points == Ticks(start, step, (end - start) / step + 1)
  {
    points := [];
    if step <= 0 || end < start {
      return;
    }
    var timestamp := start;
    while timestamp <= end
      invariant points == Ticks(start, step, |points|)
      invariant timestamp == start + |points| * step
      invariant |points| > 0 ==> timestamp - step <= end
      decreases end + step - timestamp
    {
      Next(|points|, step);
      points := points + [timestamp];
      timestamp := timestamp + step;
    }
    Next(|points| - 1, step);
    CountOfSteps(end - start, step, |points|);
  }

  /** The emitted times are exactly the times of the range that lie whole steps after its start. */
  lemma TicksFillRange(start: int, end: int, step: int, t: int)
    requires step > 0 && start <= end
    ensures t in Ticks(start, step, (end - start) / step + 1) <==> start <= t <= end && (t - start) % step == 0
  {
    if t in Ticks(start, step, (end - start) / step + 1) {
      TickIsInRange(start, end, step, t);
    }
    if start <= t <= end && (t - start) % step == 0 {
      WholeStepIsTick(start, end, step, t);
    }
  }

  /** They start with the range, each one step after the one before. */
  lemma TicksAdvance(start: int, step: int, n: nat, i: nat)
    requires i < n
    ensures |Ticks(start, step, n)| == n && Ticks(start, step, n)[0] == start
    ensures i > 0 ==> Ticks(start, step, n)[i] == Ticks(start, step, n)[i - 1] + step
  {
  }

  lemma TickIsInRange(start: int, end: int, step: int, t: int)
    requires step > 0 && start <= end && t in Ticks(start, step, (end - start) / step + 1)
    ensures start <= t <= end && (t - start) % step == 0
  {
    var n := (end - start) / step;
    var i :| 0 <= i < n + 1 && start + i * step == t;
    Quotients(end - start, step);
    Monotone(i, n, step);
    Monotone(0, i, step);
    MultipleHasNoRemainder(i, step);
  }

  lemma WholeStepIsTick(start: int, end: int, step: int, t: int)
    requires step > 0 && start <= t <= end && (t - start) % step == 0
    ensures t in Ticks(start, step, (end - start) / step + 1)
  {
    var n, k := (end - start) / step, (t - start) / step;
    Quotients(t - start, step);
    Quotients(end - start, step);
    if k > n {
      Monotone(n + 1, k, step);
    }
    assert Ticks(start, step, n + 1)[k] == t;
  }

  lemma Quotients(span: int, step: int)
    requires span >= 0 && step > 0
    ensures 0 <= span / step && (span / step) * step == span - span % step
    ensures (span / step) * step <= span < (span / step + 1) * step
  {
    DivisionKeepsSign(span, step);
    Next(span / step, step);
  }

  lemma MultipleHasNoRemainder(i: nat, step: int)
    requires step > 0
    ensures (i * step) % step == 0
  {
    var q, r := (i * step) / step, (i * step) % step;
    assert i * step == q * step + r;
    assert (i - q) * step == r;
    if i > q {
      Monotone(1, i - q, step);
    } else if i < q {
      Monotone(i - q, -1, step);
    }
  }

  lemma Next(n: nat, step: int)
    ensures (n + 1) * step == n * step + step
  {
  }

  lemma CountOfSteps(span: int, step: int, n: int)
    requires step > 0 && span >= 0 && n > 0
    requires n * step > span && (n - 1) * step <= span
    ensures n == span / step + 1
  {
    var q := span / step;
    assert span == q * step + span % step;
    if q + 1 < n {
      Monotone(q + 1, n - 1, step);
    } else if n < q + 1 {
      Monotone(n, q, step);
    }
  }

  lemma Monotone(a: int, b: int, step: int)
    requires a <= b && step >= 0
    ensures a * step <= b * step
  {
    assert b * step - a * step == (b - a) * step;
  }

  /** With the chosen step a range of the duration never needs more than 600 points. */
  lemma ChosenStepFits(duration: int)
    requires duration > 0
    ensures duration / RangeStep(duration) + 1 <= 600
  {
    RangeStepIsLeast(duration);
    Covered(duration, RangeStep(duration), INTERVALS);
  }

  lemma Covered(span: int, step: int, n: nat)
    requires step > 0 && span >= 0 && n * step >= span
    ensures span / step <= n
  {
    var q := span / step;
    assert span == q * step + span % step;
    if q > n {
      Monotone(n + 1, q, step);
      Next(n, step);
    }
  }

  // ---------------------------------------------------------------------------
  // Whole seconds

  /** The whole seconds that cover a positive duration, at least one. */
  function DurationSeconds(duration: int): int {
    var seconds := (duration + SECOND - 1) / SECOND;
    if seconds < 1 then 1 else seconds
  }

  function Unix(t: int): int {
    t / SECOND
  }

  /** The least number of whole seconds, at least one, that covers the duration. */
  lemma DurationSecondsIsLeast(duration: int)
    ensures DurationSeconds(duration) >= 1 && DurationSeconds(duration) * 1_000_000_000 >= duration
    ensures forall s: int | s >= 1 && s * 1_000_000_000 >= duration :: DurationSeconds(duration) <= s
    ensures Unix(duration) * 1_000_000_000 <= duration < (Unix(duration) + 1) * 1_000_000_000
  {
  }

  /**
   Rounding the ends down and the step up to whole seconds, as the upstream query needs,
   keeps the bound of 600 points for every range.
   */
  lemma {:induction false} WholeSecondRangeFits(end: int, duration: int)
    requires duration > 0
    ensures var start, step := end - duration, DurationSeconds(RangeStep(duration));
      0 <= (Unix(end) - Unix(start)) / step <= INTERVALS
  {
    var start, step := end - duration, RangeStep(duration);
    RangeStepIsLeast(duration);
    var seconds := DurationSeconds(step);
    assert seconds * SECOND >= step;
    var span := Unix(end) - Unix(start);
    assert (span - 1) * SECOND < duration <= INTERVALS * step;
    assert INTERVALS * step <= INTERVALS * (seconds * SECOND);
    assert INTERVALS * (seconds * SECOND) == (INTERVALS * seconds) * SECOND;
    assert span - 1 < INTERVALS * seconds;
    Covered(span, seconds, INTERVALS);
    assert span / seconds >= 0 by { DivisionKeepsSign(span, seconds); }
  }

  lemma DivisionKeepsSign(a: int, b: int)
    requires a >= 0 && b > 0
    ensures a / b >= 0
  {
  }

  // ---------------------------------------------------------------------------
  // Thinning

  /** The index kept at place i when a list with this last index is thinned. */
  function KeptIndex(i: nat, last: nat): nat {
    i * last / INTERVALS
  }

  /** At most 600 points are kept as they are; longer lists are thinned by index. */
  method NormalizePoints<T(0)>(points: seq<T>) returns (result: array<T>)
    ensures fresh(result)
    ensures |points| <= 600 ==> result[..] == points
    ensures |points| > 600 ==>
              && result.Length == 600
              && forall i | 0 <= i < 600 :: KeptIndex(i, |points| - 1) < |points| &&
                   result[i] == points[KeptIndex(i, |points| - 1)]
  {
    if |points| <= MAX_POINTS {
      result := new T[|points|];
      for i := 0 to |points|
        invariant result[..i] == points[..i]
      {
        result[i] := points[i];
      }
      return;
    }
    result := new T[MAX_POINTS];
    var last := |points| - 1;
    for i := 0 to result.Length
      invariant forall k | 0 <= k < i :: KeptIndex(k, last) < |points| && result[k] == points[KeptIndex(k, last)]
    {
      KeptIndexInRange(i, last);
      var index := i * last / (MAX_POINTS - 1);
      result[i] := points[index];
    }
  }

  lemma KeptIndexInRange(i: nat, last: nat)
    requires i <= INTERVALS
    ensures KeptIndex(i, last) <= last
    ensures KeptIndex(0, last) == 0 && KeptIndex(INTERVALS, last) == last
  {
    Monotone(i, INTERVALS, last);
  }

  /**
   The kept indices run from the first to the last point, strictly forwards, and are
   spread evenly: neighbours lie the rounded-down or the rounded-up stride apart.
   */
  lemma {:induction false} KeptIndicesSpreadEvenly(last: nat, i: nat)
    requires last >= INTERVALS && i < INTERVALS
    ensures KeptIndex(0, last) == 0 && KeptIndex(INTERVALS, last) == last
    ensures KeptIndex(i, last) < KeptIndex(i + 1, last)
    ensures 599 * KeptIndex(i, last) <= i * last < 599 * KeptIndex(i, last) + 599
    ensures last / INTERVALS <= KeptIndex(i + 1, last) - KeptIndex(i, last) <= (last + INTERVALS - 1) / INTERVALS
  {
    KeptIndexInRange(i, last);
    Next(i, last);
    Stride(i * last, last);
  }

  lemma Stride(a: nat, b: nat)
    ensures b / INTERVALS <= (a + b) / INTERVALS - a / INTERVALS <= (b + INTERVALS - 1) / INTERVALS
  {
  }

  lemma {:induction false} KeptIndicesIncrease(last: nat, i: nat, j: nat)
    requires last >= INTERVALS && i < j <= INTERVALS
    ensures KeptIndex(i, last) < KeptIndex(j, last)
    decreases j - i
  {
    KeptIndicesSpreadEvenly(last, j - 1);
    if i < j - 1 {
      KeptIndicesIncrease(last, i, j - 1);
    }
  }

  /** What a provider emits for a requested range passes through the thinning unchanged. */
  method LoadPoints(end: int, duration: int) returns (points: seq<int>)
    requires duration > 0
    ensures RangeStep(duration) > 0
    ensures |points| == duration / RangeStep(duration) + 1 <= 600
    ensures points == Ticks(end - duration, RangeStep(duration), |points|)
  {
    RangeStepIsLeast(duration);
    ChosenStepFits(duration);
    var emitted := EmitPoints(end - duration, end, RangeStep(duration));
    var kept := NormalizePoints(emitted);
    points := kept[..];
  }
}

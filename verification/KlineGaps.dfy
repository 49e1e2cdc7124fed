/** Time boundaries of a kline and the gaps between klines (`normalize_kline`, `find_gaps` of spot_ohlcv.py). */
module KlineGaps {
  import opened Common

  const MINUTE := 60_000

  datatype EpochUnit = Milliseconds | Microseconds

  function Interval(unit: EpochUnit): int {
    if unit == Milliseconds then 60_000 else 60_000_000
  }

  /** The time-boundary check of `normalize_kline`. */
  predicate BoundariesOk(open: int, close: int, unit: EpochUnit) {
    open % Interval(unit) == 0 && close == open + Interval(unit) - 1
  }

  /** Accepted klines of one unit never overlap partially: an instant inside both makes them the same minute. */
  lemma AcceptedKlinesTile(open1: int, close1: int, open2: int, close2: int, unit: EpochUnit, instant: int)
    requires BoundariesOk(open1, close1, unit) && BoundariesOk(open2, close2, unit)
    requires open1 <= instant <= close1 && open2 <= instant <= close2
    ensures open1 == open2 && close1 == close2
  {
  }

  /** A minute opens at a multiple of 60000 ms and closes a millisecond before the next; in microseconds likewise. */
  lemma BoundariesExactly(open: int, close: int, unit: EpochUnit)
    ensures BoundariesOk(open, close, unit)
            <==> exists minute: int :: if unit == Milliseconds then open == minute * 60_000 && close == open + 59_999
                                       else open == minute * 60_000_000 && close == open + 59_999_999
  {
    if BoundariesOk(open, close, unit) {
      var minute := open / Interval(unit);
      assert open == minute * Interval(unit);
      assert if unit == Milliseconds then open == minute * 60_000 && close == open + 59_999
             else open == minute * 60_000_000 && close == open + 59_999_999;
    }
  }

  /** `started`, `ended` and `detected` of a GapRecord; a gap is half-open. */
  datatype Gap = Gap(started: int, ended: int, detected: int) {
    predicate Holds(time: int) {
      started <= time < ended
    }
  }

  datatype GapError = DetectedBeforeStart

  function GapAfter(previous: int, current: int, detected: int): seq<Gap> {
    if current > previous + MINUTE then [Gap(previous + MINUTE, current, detected)] else []
  }

  /** The gaps between consecutive open times. */
  function Gaps(rows: seq<int>, detected: int): seq<Gap> {
    if |rows| < 2 then []
    else Gaps(rows[..|rows| - 1], detected) + GapAfter(rows[|rows| - 2], rows[|rows| - 1], detected)
  }

  /** The loop of `find_gaps`; a GapRecord refuses a detection time before its start. */
  method FindGaps(rows: seq<int>, detected: int) returns (r: Result<seq<Gap>, GapError>)
    ensures r.Ok? <==> forall g :: g in Gaps(rows, detected) ==> g.started <= detected
    ensures r.Ok? ==> r.value == Gaps(rows, detected)
  {
    var result: seq<Gap> := [];
    if rows == [] {
      return Ok(result);
    }
    for i := 1 to |rows|
      invariant result == Gaps(rows[..i], detected)
      invariant forall g :: g in result ==> g.started <= detected
    {
      assert rows[..i + 1][..i] == rows[..i];
      var expected := rows[i - 1] + MINUTE;
      if rows[i] > expected {
        var gap := Gap(expected, rows[i], detected);
        assert Gaps(rows[..i + 1], detected) == result + [gap];
        if detected < gap.started {
          GapsPersist(rows, detected, i + 1, gap);
          return Err(DetectedBeforeStart);
        }
        result := result + [gap];
      }
    }
    assert rows[..|rows|] == rows;
    r := Ok(result);
  }

  /** A gap is recorded exactly between two neighbouring rows more than a minute apart. */
  lemma {:induction false} GapsExactly(rows: seq<int>, detected: int, g: Gap)
    ensures g in Gaps(rows, detected)
            <==> exists i :: 0 < i < |rows| && rows[i] > rows[i - 1] + 60_000
                   && g == Gap(rows[i - 1] + 60_000, rows[i], detected)
  {
    if |rows| >= 2 {
      var prefix := rows[..|rows| - 1];
      GapsExactly(prefix, detected, g);
      assert forall i :: 0 <= i < |prefix| ==> prefix[i] == rows[i];
      if i :| 0 < i < |prefix| && prefix[i] > prefix[i - 1] + 60_000
              && g == Gap(prefix[i - 1] + 60_000, prefix[i], detected) {
        assert rows[i] > rows[i - 1] + 60_000 && g == Gap(rows[i - 1] + 60_000, rows[i], detected);
      }
    }
  }

  lemma {:induction false} GapsPersist(rows: seq<int>, detected: int, n: nat, g: Gap)
    requires n <= |rows| && g in Gaps(rows[..n], detected)
    ensures g in Gaps(rows, detected)
    decreases |rows|
  {
    if n == |rows| {
      assert rows[..n] == rows;
    } else {
      assert rows[..|rows| - 1][..n] == rows[..n];
      GapsPersist(rows[..|rows| - 1], detected, n, g);
    }
  }

  /** Strictly ascending minute-aligned open times. */
  predicate CandleTimes(rows: seq<int>) {
    && (forall i :: 0 <= i < |rows| ==> rows[i] % MINUTE == 0)
    && (forall i, j :: 0 <= i < j < |rows| ==> rows[i] < rows[j])
  }

  predicate Missing(gaps: seq<Gap>, time: int) {
    exists k :: 0 <= k < |gaps| && gaps[k].Holds(time)
  }

  predicate Ordered(gaps: seq<Gap>) {
    forall j, k :: 0 <= j < k < |gaps| ==> gaps[j].ended < gaps[k].started
  }

  predicate Inside(gaps: seq<Gap>, first: int, last: int) {
    forall k :: 0 <= k < |gaps| ==>
      && first < gaps[k].started < gaps[k].ended <= last
      && gaps[k].started % MINUTE == 0 && gaps[k].ended % MINUTE == 0
  }

  lemma GapAppended(gaps: seq<Gap>, first: int, previous: int, current: int, detected: int)
    requires Ordered(gaps) && Inside(gaps, first, previous) && first <= previous < current
    requires previous % MINUTE == 0 && current % MINUTE == 0
    ensures Ordered(gaps + GapAfter(previous, current, detected))
    ensures Inside(gaps + GapAfter(previous, current, detected), first, current)
  {
  }

  lemma PrefixTimes(rows: seq<int>)
    requires CandleTimes(rows) && rows != []
    ensures CandleTimes(rows[..|rows| - 1])
  {
  }

  /** Gaps lie between the first and the last row, one after the other. */
  lemma {:induction false} GapsAreOrdered(rows: seq<int>, detected: int)
    requires CandleTimes(rows)
    ensures Ordered(Gaps(rows, detected))
    ensures rows != [] ==> Inside(Gaps(rows, detected), rows[0], rows[|rows| - 1])
  {
    if |rows| >= 2 {
      PrefixTimes(rows);
      GapsAreOrdered(rows[..|rows| - 1], detected);
      GapAppended(Gaps(rows[..|rows| - 1], detected), rows[0], rows[|rows| - 2], rows[|rows| - 1], detected);
    }
  }

  lemma MissingAppend(a: seq<Gap>, b: seq<Gap>, time: int)
    ensures Missing(a + b, time) <==> Missing(a, time) || Missing(b, time)
  {
    if k :| 0 <= k < |a| && a[k].Holds(time) {
      assert (a + b)[k].Holds(time);
    }
    if k :| 0 <= k < |b| && b[k].Holds(time) {
      assert (a + b)[|a| + k].Holds(time);
    }
  }

  lemma MissingOne(previous: int, current: int, detected: int, time: int)
    ensures Missing(GapAfter(previous, current, detected), time) <==> previous + MINUTE <= time < current
  {
    if previous + MINUTE <= time < current {
      assert GapAfter(previous, current, detected)[0].Holds(time);
    }
  }

  /** Every minute from the first row to the last is either a row or missing, never both. */
  lemma {:induction false} MinuteIsRowOrMissing(rows: seq<int>, detected: int, time: int)
    requires CandleTimes(rows) && rows != [] && time % MINUTE == 0 && rows[0] <= time <= rows[|rows| - 1]
    ensures time in rows <==> !Missing(Gaps(rows, detected), time)
  {
    if |rows| >= 2 {
      var prefix, previous, current := rows[..|rows| - 1], rows[|rows| - 2], rows[|rows| - 1];
      assert rows == prefix + [current];
      MissingAppend(Gaps(prefix, detected), GapAfter(previous, current, detected), time);
      MissingOne(previous, current, detected, time);
      if time <= previous {
        MinuteIsRowOrMissing(prefix, detected, time);
      } else {
        GapsAreOrdered(prefix, detected);
        assert !Missing(Gaps(prefix, detected), time);
        assert time in prefix ==> time <= previous;
      }
    }
  }

  /** A missing minute belongs to one gap only. */
  lemma MinuteInOneGap(rows: seq<int>, detected: int, time: int, j: nat, k: nat)
    requires CandleTimes(rows) && j < |Gaps(rows, detected)| && k < |Gaps(rows, detected)|
    requires Gaps(rows, detected)[j].Holds(time) && Gaps(rows, detected)[k].Holds(time)
    ensures j == k
  {
    GapsAreOrdered(rows, detected);
  }

  function MissingMinutes(gaps: seq<Gap>): int {
    if gaps == [] then 0
    else MissingMinutes(gaps[..|gaps| - 1]) + (gaps[|gaps| - 1].ended - gaps[|gaps| - 1].started) / MINUTE
  }

  lemma MissingMinutesAfter(gaps: seq<Gap>, previous: int, current: int, detected: int)
    requires previous % MINUTE == 0 && current % MINUTE == 0 && previous < current
    ensures MissingMinutes(gaps + GapAfter(previous, current, detected))
            == MissingMinutes(gaps) + (current - previous) / MINUTE - 1
  {
    var after := GapAfter(previous, current, detected);
    if after == [] {
      assert gaps + after == gaps;
    } else {
      assert (gaps + after)[..|gaps|] == gaps;
    }
  }

  lemma MinutesAdd(a: int, b: int, c: int)
    requires a % MINUTE == 0 && b % MINUTE == 0 && c % MINUTE == 0
    ensures (b - a) / MINUTE + (c - b) / MINUTE == (c - a) / MINUTE
  {
  }

  /** What one more row adds to the missing minutes. */
  lemma MissingMinutesStep(rows: seq<int>, detected: int)
    requires CandleTimes(rows) && |rows| >= 2
    ensures MissingMinutes(Gaps(rows, detected))
            == MissingMinutes(Gaps(rows[..|rows| - 1], detected)) + (rows[|rows| - 1] - rows[|rows| - 2]) / MINUTE - 1
  {
    MissingMinutesAfter(Gaps(rows[..|rows| - 1], detected), rows[|rows| - 2], rows[|rows| - 1], detected);
  }

  /** Rows and missing minutes together account for the whole span. */
  lemma {:induction false} RowsAndGapsFillTheSpan(rows: seq<int>, detected: int)
    requires CandleTimes(rows) && rows != []
    ensures |rows| + MissingMinutes(Gaps(rows, detected)) == (rows[|rows| - 1] - rows[0]) / MINUTE + 1
  {
    if |rows| == 1 {
      assert MissingMinutes(Gaps(rows, detected)) == 0;
    } else {
      PrefixTimes(rows);
      RowsAndGapsFillTheSpan(rows[..|rows| - 1], detected);
      MissingMinutesStep(rows, detected);
      MinutesAdd(rows[0], rows[|rows| - 2], rows[|rows| - 1]);
    }
  }
}

/**
 * The "Summary Statistics" figures of the reports page (`overallStats`), folded from the
 * per-cycle rows: the total collected, the on-time, late and missed counts,
 * and the mean completion rate rounded the way `Math.round` rounds.
 */
module ReportStats {
  import opened Optional

  /** One row of the cycle table. Amounts and counts are whole numbers;
      the completion rate is a percentage. */
  datatype CycleRow = CycleRow(
    cycle: int,
    date: string,
    totalDue: int,
    totalPaid: int,
    onTime: int,
    late: int,
    missed: int,
    completionRate: real)

  /** The whole-number columns of a row. */
  datatype Column = TotalDue | TotalPaid | OnTime | Late | Missed

  function Cell(r: CycleRow, c: Column): int
  {
    match c
    case TotalDue => r.totalDue
    case TotalPaid => r.totalPaid
    case OnTime => r.onTime
    case Late => r.late
    case Missed => r.missed
  }

  /** `rows.reduce((sum, row) => sum + row.<c>, 0)`: a fold from the left, starting at 0. */
  function ColumnSum(rows: seq<CycleRow>, c: Column): (r: int)
    ensures rows == [] ==> r == 0
    ensures |rows| == 1 ==> r == Cell(rows[0], c)
  {
    if rows == [] then 0 else ColumnSum(rows[..|rows| - 1], c) + Cell(rows[|rows| - 1], c)
  }

  /** `rows.reduce((sum, row) => sum + row.completionRate, 0)`. */
  function RateSum(rows: seq<CycleRow>): (r: real)
    ensures rows == [] ==> r == 0.0
    ensures |rows| == 1 ==> r == rows[0].completionRate
  {
    if rows == [] then 0.0 else RateSum(rows[..|rows| - 1]) + rows[|rows| - 1].completionRate
  }

  /** `Math.round`: the nearest integer, a half rounded up (towards positive infinity). */
  function Round(x: real): (r: int)
    ensures r as real - 0.5 <= x < r as real + 0.5
  {
    (x + 0.5).Floor
  }

  /** `Math.round(sum / rows.length)`; with no rows the division yields NaN, modelled as None. */
  function AverageCompletionRate(rows: seq<CycleRow>): (r: Option<int>)
    ensures r.Some? <==> |rows| > 0
    ensures r.Some? ==>
      r.value as real - 0.5 <= RateSum(rows) / (|rows| as real) < r.value as real + 0.5
  {
    if |rows| == 0 then None else Some(Round(RateSum(rows) / (|rows| as real)))
  }

  /** The `overallStats` object. */
  datatype OverallStats = OverallStats(
    totalCollected: int,
    averageCompletionRate: Option<int>,
    totalOnTime: int,
    totalLate: int,
    totalMissed: int)

  function Overall(rows: seq<CycleRow>): (r: OverallStats)
    ensures rows == [] ==> r == OverallStats(0, None, 0, 0, 0)
    ensures |rows| == 1 ==> r == OverallStats(rows[0].totalPaid, Some(Round(rows[0].completionRate)),
                                              rows[0].onTime, rows[0].late, rows[0].missed)
  {
    OverallStats(
      ColumnSum(rows, TotalPaid),
      AverageCompletionRate(rows),
      ColumnSum(rows, OnTime),
      ColumnSum(rows, Late),
      ColumnSum(rows, Missed))
  }

  /** The fold over a concatenation is the sum of the folds: the total does
      not depend on how the rows are split into periods. */
  lemma {:induction false} ColumnSumAppend(a: seq<CycleRow>, b: seq<CycleRow>, c: Column)
    ensures ColumnSum(a + b, c) == ColumnSum(a, c) + ColumnSum(b, c)
    decreases |b|
  {
    if b != [] {
      var ab := a + b;
      assert ab[..|ab| - 1] == a + b[..|b| - 1];
      assert ab[|ab| - 1] == b[|b| - 1];
      ColumnSumAppend(a, b[..|b| - 1], c);
    } else {
      assert a + b == a;
    }
  }

  /** Folding from the right gives the same total: the first row plus the rest. */
  lemma ColumnSumFromFront(rows: seq<CycleRow>, c: Column)
    requires rows != []
    ensures ColumnSum(rows, c) == Cell(rows[0], c) + ColumnSum(rows[1..], c)
  {
    assert rows == [rows[0]] + rows[1..];
    ColumnSumAppend([rows[0]], rows[1..], c);
  }

  /** The sum of rates over joined row lists is the sum of the two sums. */
  lemma {:induction false} RateSumAppend(a: seq<CycleRow>, b: seq<CycleRow>)
    ensures RateSum(a + b) == RateSum(a) + RateSum(b)
    decreases |b|
  {
    if b != [] {
      var ab := a + b;
      assert ab[..|ab| - 1] == a + b[..|b| - 1];
      assert ab[|ab| - 1] == b[|b| - 1];
      RateSumAppend(a, b[..|b| - 1]);
    } else {
      assert a + b == a;
    }
  }

  /** Folding the rates from the right gives the same sum. */
  lemma RateSumFromFront(rows: seq<CycleRow>)
    requires rows != []
    ensures RateSum(rows) == rows[0].completionRate + RateSum(rows[1..])
  {
    assert rows == [rows[0]] + rows[1..];
    RateSumAppend([rows[0]], rows[1..]);
  }

  /** Bounds on every cell bound the total. */
  lemma {:induction false} ColumnSumBounds(rows: seq<CycleRow>, c: Column, lo: int, hi: int)
    requires forall i :: 0 <= i < |rows| ==> lo <= Cell(rows[i], c) <= hi
    ensures |rows| * lo <= ColumnSum(rows, c) <= |rows| * hi
  {
    if rows != [] {
      var init := rows[..|rows| - 1];
      assert forall i :: 0 <= i < |init| ==> init[i] == rows[i];
      ColumnSumBounds(init, c, lo, hi);
      MulStep(|init|, lo);
      MulStep(|init|, hi);
    }
  }

  /** One more row adds one more bound. */
  lemma MulStep(n: nat, x: int)
    ensures (n + 1) * x == n * x + x
  {
  }

  /** Cells that are never negative give a total that is never negative. */
  lemma {:induction false} ColumnSumNonNegative(rows: seq<CycleRow>, c: Column)
    requires forall i :: 0 <= i < |rows| ==> 0 <= Cell(rows[i], c)
    ensures 0 <= ColumnSum(rows, c)
  {
    if rows != [] {
      var init := rows[..|rows| - 1];
      assert forall i :: 0 <= i < |init| ==> init[i] == rows[i];
      ColumnSumNonNegative(init, c);
    }
  }

  /** Row by row domination carries over to the totals. */
  lemma {:induction false} ColumnSumMonotone(rows: seq<CycleRow>, c: Column, d: Column)
    requires forall i :: 0 <= i < |rows| ==> Cell(rows[i], c) <= Cell(rows[i], d)
    ensures ColumnSum(rows, c) <= ColumnSum(rows, d)
  {
    if rows != [] {
      var init := rows[..|rows| - 1];
      assert forall i :: 0 <= i < |init| ==> init[i] == rows[i];
      ColumnSumMonotone(init, c, d);
    }
  }

  /** Bounds on every rate bound the sum of rates. */
  lemma {:induction false} RateSumBounds(rows: seq<CycleRow>, lo: real, hi: real)
    requires forall i :: 0 <= i < |rows| ==> lo <= rows[i].completionRate <= hi
    ensures (|rows| as real) * lo <= RateSum(rows) <= (|rows| as real) * hi
  {
    if rows != [] {
      var init := rows[..|rows| - 1];
      assert forall i :: 0 <= i < |init| ==> init[i] == rows[i];
      RateSumBounds(init, lo, hi);
      assert (|rows| as real) * lo == (|init| as real) * lo + lo;
      assert (|rows| as real) * hi == (|init| as real) * hi + hi;
    }
  }

  /** When every rate is a percentage in [0, 100], so is the rounded average. */
  lemma AverageInRange(rows: seq<CycleRow>)
    requires |rows| > 0
    requires forall i :: 0 <= i < |rows| ==> 0.0 <= rows[i].completionRate <= 100.0
    ensures Overall(rows).averageCompletionRate.Some?
    ensures 0 <= Overall(rows).averageCompletionRate.value <= 100
  {
    RateSumBounds(rows, 0.0, 100.0);
    var n := |rows| as real;
    var mean := RateSum(rows) / n;
    assert 0.0 <= mean <= 100.0 by {
      assert RateSum(rows) <= n * 100.0;
      assert mean * n == RateSum(rows);
    }
  }

  /** When every row has the same whole-number rate, the average is exactly that rate. */
  lemma AverageOfEqualRates(rows: seq<CycleRow>, k: int)
    requires |rows| > 0
    requires forall i :: 0 <= i < |rows| ==> rows[i].completionRate == k as real
    ensures Overall(rows).averageCompletionRate == Some(k)
  {
    RateSumBounds(rows, k as real, k as real);
    var n := |rows| as real;
    assert RateSum(rows) / n == k as real by {
      assert RateSum(rows) == n * (k as real);
    }
    assert AverageCompletionRate(rows) == Some(Round(k as real));
    assert Round(k as real) == k;
  }

  /** Nobody can be paid more than was due: if no row collects more than it is
      owed, the total collected is at most the total due, and at least zero
      when no row records a negative payment. */
  lemma CollectedAtMostDue(rows: seq<CycleRow>)
    requires forall i :: 0 <= i < |rows| ==> 0 <= rows[i].totalPaid <= rows[i].totalDue
    ensures 0 <= Overall(rows).totalCollected <= ColumnSum(rows, TotalDue)
  {
    ColumnSumMonotone(rows, TotalPaid, TotalDue);
    ColumnSumNonNegative(rows, TotalPaid);
  }

  /** The three counts add up row by row, so they add up in total: with `m`
      members settling (on time, late or missed) in every cycle, the totals
      account for exactly `m` payments per cycle. */
  lemma {:induction false} CountsAddUp(rows: seq<CycleRow>, m: int)
    requires forall i :: 0 <= i < |rows| ==> rows[i].onTime + rows[i].late + rows[i].missed == m
    ensures Overall(rows).totalOnTime + Overall(rows).totalLate + Overall(rows).totalMissed == |rows| * m
  {
    if rows != [] {
      var init := rows[..|rows| - 1];
      assert forall i :: 0 <= i < |init| ==> init[i] == rows[i];
      CountsAddUp(init, m);
      MulStep(|init|, m);
    }
  }

  /** The six cycles the page shows for its first group. */
  const SampleCycles: seq<CycleRow> := [
    CycleRow(15, "2024-01-08", 200000, 150000, 3, 0, 1, 75.0),
    CycleRow(14, "2024-01-01", 200000, 200000, 4, 0, 0, 100.0),
    CycleRow(13, "2023-12-25", 200000, 200000, 3, 1, 0, 100.0),
    CycleRow(12, "2023-12-18", 200000, 200000, 4, 0, 0, 100.0),
    CycleRow(11, "2023-12-11", 200000, 150000, 2, 1, 1, 75.0),
    CycleRow(10, "2023-12-04", 200000, 200000, 4, 0, 0, 100.0)
  ]

  /** The figures the page displays for those cycles: 550 / 6 = 91.67 rounds to 92. */
  lemma SampleOverall()
    ensures Overall(SampleCycles) == OverallStats(1100000, Some(92), 20, 2, 2)
  {
    var s := SampleCycles;
    assert s[..1][..0] == s[..0];
    assert RateSum(s[..1]) == 75.0 && ColumnSum(s[..1], TotalPaid) == 150000;
    assert ColumnSum(s[..1], OnTime) == 3 && ColumnSum(s[..1], Late) == 0 && ColumnSum(s[..1], Missed) == 1;
    assert s[..2][..1] == s[..1];
    assert RateSum(s[..2]) == 175.0 && ColumnSum(s[..2], TotalPaid) == 350000;
    assert ColumnSum(s[..2], OnTime) == 7 && ColumnSum(s[..2], Late) == 0 && ColumnSum(s[..2], Missed) == 1;
    assert s[..3][..2] == s[..2];
    assert RateSum(s[..3]) == 275.0 && ColumnSum(s[..3], TotalPaid) == 550000;
    assert ColumnSum(s[..3], OnTime) == 10 && ColumnSum(s[..3], Late) == 1 && ColumnSum(s[..3], Missed) == 1;
    assert s[..4][..3] == s[..3];
    assert RateSum(s[..4]) == 375.0 && ColumnSum(s[..4], TotalPaid) == 750000;
    assert ColumnSum(s[..4], OnTime) == 14 && ColumnSum(s[..4], Late) == 1 && ColumnSum(s[..4], Missed) == 1;
    assert s[..5][..4] == s[..4];
    assert RateSum(s[..5]) == 450.0 && ColumnSum(s[..5], TotalPaid) == 900000;
    assert ColumnSum(s[..5], OnTime) == 16 && ColumnSum(s[..5], Late) == 2 && ColumnSum(s[..5], Missed) == 2;
    assert s[..6][..5] == s[..5];
    assert RateSum(s[..6]) == 550.0 && ColumnSum(s[..6], TotalPaid) == 1100000;
    assert ColumnSum(s[..6], OnTime) == 20 && ColumnSum(s[..6], Late) == 2 && ColumnSum(s[..6], Missed) == 2;
    assert s[..6] == s;
    assert Round(550.0 / 6.0) == 92;
  }

  /** A tie is rounded up: rates 75 and 100 average 87.5, shown as 88. */
  lemma HalfRoundsUp()
    ensures AverageCompletionRate([
      CycleRow(2, "", 0, 0, 0, 0, 0, 75.0),
      CycleRow(1, "", 0, 0, 0, 0, 0, 100.0)]) == Some(88)
  {
    var s := [CycleRow(2, "", 0, 0, 0, 0, 0, 75.0), CycleRow(1, "", 0, 0, 0, 0, 0, 100.0)];
    assert s[..1][..0] == [];
    assert RateSum(s) == 175.0;
    assert Round(175.0 / 2.0) == 88;
  }
}

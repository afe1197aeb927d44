/** The data table printed after the sample loop: a header row, then one row
    per time index, holding the grid time and, for each plot whose series
    reaches that index, an absorbance and the ratio A_t / A_0. The table is
    built as the program builds it, and beside it as evidently intended. */
module Report {
  import opened ArrayOps
  import opened Kinetics

  /** A table cell before number formatting. */
  datatype Cell = Blank | TimeHeading | AbsorbanceHeading(plot: nat) | RatioHeading(plot: nat) | Value(x: real)

  /** The header row for `n` plots: the time heading, then each plot's
      absorbance and ratio headings, plots numbered from 1. */
  function Headers(n: nat): seq<Cell> {
    if n == 0 then [TimeHeading]
    else Headers(n - 1) + [AbsorbanceHeading(n), RatioHeading(n)]
  }

  /** Column 0 is the time; plot `p` owns column `2 * p - 1` for its
      absorbance and column `2 * p` for its ratio. */
  lemma {:induction false} HeadersLayout(n: nat)
    ensures |Headers(n)| == 1 + 2 * n && Headers(n)[0] == TimeHeading
    ensures forall c :: 1 <= c < |Headers(n)| ==>
      Headers(n)[c] == if c % 2 == 1 then AbsorbanceHeading((c + 1) / 2) else RatioHeading(c / 2)
  {
    if n > 0 {
      HeadersLayout(n - 1);
    }
  }

  /** The header row, extended plot by plot. */
  method BuildHeaders(n: nat) returns (h: seq<Cell>)
    ensures h == Headers(n)
  {
    h := [TimeHeading];
    var i := 0;
    while i < n
      invariant 0 <= i <= n
      invariant h == Headers(i)
    {
      h := h + [AbsorbanceHeading(i + 1), RatioHeading(i + 1)];
      i := i + 1;
    }
  }

  /** Row `r` can be written: every plot whose series reaches row `r` has a
      ratio and an absorbance (taken from `absColumns`) there. */
  predicate Fits(plots: seq<Series>, absColumns: seq<seq<real>>, r: nat)
    requires |plots| == |absColumns|
  {
    forall j :: 0 <= j < |plots| && r < |plots[j].times| ==> r < |plots[j].ratios| && r < |absColumns[j]|
  }

  /** Row `r` once the first `k` plots have written into it: a plot whose
      series reaches row `r` sets the time cell and its own two cells. */
  function RowAfter(plots: seq<Series>, absColumns: seq<seq<real>>, r: nat, k: nat): (row: seq<Cell>)
    requires k <= |plots| == |absColumns| && Fits(plots, absColumns, r)
    ensures |row| == 1 + 2 * |plots|
  {
    if k == 0 then seq(1 + 2 * |plots|, _ => Blank)
    else
      var row := RowAfter(plots, absColumns, r, k - 1);
      var v := plots[k - 1];
      if r < |v.times| then
        row[0 := Value(v.times[r])][2 * k - 1 := Value(absColumns[k - 1][r])][2 * k := Value(v.ratios[r])]
      else row
  }

  /** What column `c` of row `r` holds once the first `k` plots have written
      into it, when every series lies on the grid `ts`: the grid time if any
      of them reaches row `r`; in plot `j`'s columns its absorbance and ratio
      if its series reaches row `r`; blank otherwise. */
  ghost function CellAfter(ts: seq<real>, plots: seq<Series>, absColumns: seq<seq<real>>, r: nat, k: nat, c: nat): Cell
    requires k <= |plots| == |absColumns| && Fits(plots, absColumns, r)
  {
    if c == 0 then
      if r < |ts| && exists j :: 0 <= j < k && r < |plots[j].times| then Value(ts[r]) else Blank
    else if (c - 1) / 2 < k && r < |plots[(c - 1) / 2].times| then
      if c % 2 == 1 then Value(absColumns[(c - 1) / 2][r]) else Value(plots[(c - 1) / 2].ratios[r])
    else Blank
  }

  /** Every row below `count` can be written when each plot has a ratio per
      time and an absorbance column reaching past `count` or past its series. */
  lemma RowsFit(plots: seq<Series>, absColumns: seq<seq<real>>, count: nat)
    requires |plots| == |absColumns|
    requires forall j :: 0 <= j < |plots| ==>
      Aligned(plots[j]) && (count <= |absColumns[j]| || |plots[j].times| <= |absColumns[j]|)
    ensures forall r :: 0 <= r < count ==> Fits(plots, absColumns, r)
  {
  }

  /** Column `c >= 1` belongs to plot `(c - 1) / 2`, which is plot `k - 1`
      exactly for the two columns `2 * k - 1` and `2 * k`. */
  lemma ColumnOwner(c: nat, k: nat)
    requires 1 <= c && 1 <= k
    ensures (c - 1) / 2 == k - 1 <==> c == 2 * k - 1 || c == 2 * k
    ensures c == 2 * k - 1 ==> c % 2 == 1
    ensures c == 2 * k ==> c % 2 == 0
  {
  }

  /** The row-filling loop leaves in every cell what `CellAfter` says. */
  lemma {:induction false} RowAfterCells(ts: seq<real>, plots: seq<Series>, absColumns: seq<seq<real>>, r: nat, k: nat)
    requires k <= |plots| == |absColumns| && Fits(plots, absColumns, r)
    requires forall j :: 0 <= j < |plots| ==> OnGrid(ts, plots[j])
    ensures forall c :: 0 <= c < 1 + 2 * |plots| ==>
      RowAfter(plots, absColumns, r, k)[c] == CellAfter(ts, plots, absColumns, r, k, c)
  {
    if k > 0 {
      RowAfterCells(ts, plots, absColumns, r, k - 1);
      var v := plots[k - 1];
      forall c | 0 <= c < 1 + 2 * |plots|
        ensures RowAfter(plots, absColumns, r, k)[c] == CellAfter(ts, plots, absColumns, r, k, c)
      {
        if c == 0 {
          if r < |v.times| {
            assert v.times[r] == ts[r];
          }
        } else {
          ColumnOwner(c, k);
        }
      }
    }
  }

  /** The inner loop: each plot in turn writes its cells of row `r`. */
  method FillRow(row: array<Cell>, plots: seq<Series>, absColumns: seq<seq<real>>, r: nat)
    requires |plots| == |absColumns| && Fits(plots, absColumns, r)
    requires row[..] == RowAfter(plots, absColumns, r, 0)
    modifies row
    ensures row[..] == RowAfter(plots, absColumns, r, |plots|)
  {
    var i := 0;
    while i < |plots|
      invariant 0 <= i <= |plots|
      invariant row[..] == RowAfter(plots, absColumns, r, i)
    {
      var v := plots[i];
      if r < |v.times| {
        row[0] := Value(v.times[r]);
        row[1 + 2 * i] := Value(absColumns[i][r]);
        row[2 + 2 * i] := Value(v.ratios[r]);
      }
      i := i + 1;
    }
  }

  /** The first `count` data rows, each filled by every plot in turn. */
  function Rows(plots: seq<Series>, absColumns: seq<seq<real>>, count: nat): (rows: seq<seq<Cell>>)
    requires |plots| == |absColumns| && forall r :: 0 <= r < count ==> Fits(plots, absColumns, r)
    ensures |rows| == count
  {
    seq(count, r requires 0 <= r < count => RowAfter(plots, absColumns, r, |plots|))
  }

  /** The outer loop: a fresh blank row per row index, filled and appended. */
  method FillRows(plots: seq<Series>, absColumns: seq<seq<real>>, count: nat) returns (rows: seq<seq<Cell>>)
    requires |plots| == |absColumns| && forall r :: 0 <= r < count ==> Fits(plots, absColumns, r)
    ensures rows == Rows(plots, absColumns, count)
  {
    rows := [];
    var r := 0;
    while r < count
      invariant 0 <= r <= count
      invariant |rows| == r
      invariant forall q :: 0 <= q < r ==> rows[q] == RowAfter(plots, absColumns, q, |plots|)
    {
      var row := new Cell[1 + 2 * |plots|](_ => Blank);
      FillRow(row, plots, absColumns, r);
      rows := rows + [row[..]];
      r := r + 1;
    }
  }

  /** The largest of `lens[0]`, ..., `lens[n - 1]`. */
  function LongestBelow(lens: seq<nat>, n: nat): nat
    requires 0 < n <= |lens|
  {
    if n == 1 then lens[0]
    else
      var m := LongestBelow(lens, n - 1);
      if m < lens[n - 1] then lens[n - 1] else m
  }

  /** `max` of a non-empty collection of lengths. */
  function Longest(lens: seq<nat>): nat
    requires |lens| > 0
  {
    LongestBelow(lens, |lens|)
  }

  /** The maximum length is one of the lengths and no length exceeds it. */
  lemma {:induction false} LongestBelowIsMaximum(lens: seq<nat>, n: nat)
    requires 0 < n <= |lens|
    ensures exists i :: 0 <= i < n && lens[i] == LongestBelow(lens, n)
    ensures forall i :: 0 <= i < n ==> lens[i] <= LongestBelow(lens, n)
  {
    if n == 1 {
      assert lens[0] == LongestBelow(lens, n);
    } else {
      LongestBelowIsMaximum(lens, n - 1);
      var m := LongestBelow(lens, n - 1);
      if m < lens[n - 1] {
        assert lens[n - 1] == LongestBelow(lens, n);
      } else {
        var i :| 0 <= i < n - 1 && lens[i] == m;
        assert lens[i] == LongestBelow(lens, n);
      }
    }
  }

  lemma LongestIsMaximum(lens: seq<nat>)
    requires |lens| > 0
    ensures Longest(lens) in lens && forall i :: 0 <= i < |lens| ==> lens[i] <= Longest(lens)
  {
    LongestBelowIsMaximum(lens, |lens|);
  }

  /** The row count as the program computes it: for every plot the number of
      non-zero readings of the last sample (the mask left over from the
      sample loop), whose maximum is that same number. */
  function RowCountAsWritten(ts: seq<real>, run: Run): (count: nat)
    requires |run.mask| == |ts| && |run.plotData| > 0
    ensures count == |Kept(run.mask)|
  {
    var lens := seq(|run.plotData|, _ => |Compress(ts, run.mask)|);
    LongestIsMaximum(lens);
    Longest(lens)
  }

  /** The absorbance column every plot gets as written: the last sample's
      non-zero readings, once per plot. */
  function LastColumn(run: Run): (columns: seq<seq<real>>)
    requires |run.readings| == |run.mask|
    ensures |columns| == |run.plotData|
    ensures forall k :: 0 <= k < |columns| ==> columns[k] == Compress(run.readings, run.mask)
  {
    seq(|run.plotData|, _ => Compress(run.readings, run.mask))
  }

  /** The table as the program builds it: the row count of `RowCountAsWritten`,
      and in every plot's absorbance column the last sample's non-zero
      readings, indexed by row. There is no table without a plot. */
  function TableAsWritten(ts: seq<real>, run: Run): Result<seq<seq<Cell>>>
    requires |run.plotData| > 0 ==> |run.mask| == |ts| == |run.readings|
    requires forall k :: 0 <= k < |run.plotData| ==> Aligned(run.plotData[k])
  {
    var n := |run.plotData|;
    if n == 0 then Failure(NoPlots)
    else
      var count := RowCountAsWritten(ts, run);
      RowsFit(run.plotData, LastColumn(run), count);
      Success([Headers(n)] + Rows(run.plotData, LastColumn(run), count))
  }

  /** The table builder as written. */
  method BuildTable(ts: seq<real>, run: Run) returns (r: Result<seq<seq<Cell>>>)
    requires |run.plotData| > 0 ==> |run.mask| == |ts| == |run.readings|
    requires forall k :: 0 <= k < |run.plotData| ==> Aligned(run.plotData[k])
    ensures r == TableAsWritten(ts, run)
  {
    var n := |run.plotData|;
    if n == 0 {
      return Failure(NoPlots);
    }
    var headers := BuildHeaders(n);
    var count := RowCountAsWritten(ts, run);
    var rows := FillRows(run.plotData, LastColumn(run), count);
    return Success([headers] + rows);
  }

  /** The length of every plot's series. */
  function Lengths(plots: seq<Series>): (lens: seq<nat>)
    ensures |lens| == |plots|
  {
    seq(|plots|, k requires 0 <= k < |plots| => |plots[k].times|)
  }

  /** Every plot's own absorbance column. */
  function OwnAbsorbances(plots: seq<Series>): (columns: seq<seq<real>>)
    ensures |columns| == |plots|
  {
    seq(|plots|, k requires 0 <= k < |plots| => plots[k].absorbances)
  }

  /** The table as evidently intended: as many rows as the longest series,
      and in every plot's absorbance column that plot's own interpolated
      absorbances, aligned with its times and ratios. */
  function TableIntended(plots: seq<Series>): Result<seq<seq<Cell>>>
    requires forall k :: 0 <= k < |plots| ==> Aligned(plots[k])
  {
    var n := |plots|;
    if n == 0 then Failure(NoPlots)
    else
      var count := Longest(Lengths(plots));
      RowsFit(plots, OwnAbsorbances(plots), count);
      Success([Headers(n)] + Rows(plots, OwnAbsorbances(plots), count))
  }

  /** The table builder with the row count and the absorbance column corrected. */
  method BuildTableIntended(plots: seq<Series>) returns (r: Result<seq<seq<Cell>>>)
    requires forall k :: 0 <= k < |plots| ==> Aligned(plots[k])
    ensures r == TableIntended(plots)
  {
    var n := |plots|;
    if n == 0 {
      return Failure(NoPlots);
    }
    var headers := BuildHeaders(n);
    var count := Longest(Lengths(plots));
    var rows := FillRows(plots, OwnAbsorbances(plots), count);
    return Success([headers] + rows);
  }

  /** The run the sample loop leaves behind: the series, and the mask and
      readings of the last sample (none when there is no sample). */
  function RunOf(samples: seq<Sample>, plots: seq<Series>): Run {
    Run(plots, NonZeroMask(LastReadings(samples)), LastReadings(samples))
  }

  /** The whole analysis as the program runs it: the sample loop, then the table. */
  function Analysis(ts: seq<real>, samples: seq<Sample>): Result<seq<seq<Cell>>>
    requires StrictlyIncreasing(ts)
  {
    match Gather(Outcomes(ts, samples), |samples|)
    case Failure(e) => Failure(e)
    case Success(plots) =>
      CollectedSeriesOnGrid(ts, samples);
      TableAsWritten(ts, RunOf(samples, plots))
  }

  /** The sample loop followed by the table builder. */
  method RunAnalysis(ts: seq<real>, samples: seq<Sample>) returns (r: Result<seq<seq<Cell>>>)
    requires StrictlyIncreasing(ts)
    ensures r == Analysis(ts, samples)
  {
    var collected := CollectPlotData(ts, samples);
    if collected.Failure? {
      return Failure(collected.error);
    }
    CollectedSeriesOnGrid(ts, samples);
    r := BuildTable(ts, collected.value);
  }

  /** Column `2 * k + 1` holds plot `k`'s absorbance and column `2 * k + 2`
      its ratio, as `CellAfter` reads them. */
  lemma PlotColumns(k: nat)
    ensures (1 + 2 * k - 1) / 2 == k && (1 + 2 * k) % 2 == 1
    ensures (2 + 2 * k - 1) / 2 == k && (2 + 2 * k) % 2 == 0
  {
  }

  /** As written, the table has one data row per non-zero reading of the last
      sample. In data row `r` the time cell holds the grid time if some series
      reaches row `r`, and a plot's absorbance cell holds the last sample's
      `r`-th non-zero reading (whatever the plot) while its ratio cell holds
      its own `r`-th ratio, wherever its series reaches row `r`. */
  lemma AsWrittenCells(ts: seq<real>, run: Run, k: nat, r: nat)
    requires |run.mask| == |ts| == |run.readings|
    requires forall j :: 0 <= j < |run.plotData| ==> Aligned(run.plotData[j]) && OnGrid(ts, run.plotData[j])
    requires k < |run.plotData| && r < |Kept(run.mask)|
    ensures TableAsWritten(ts, run).Success?
    ensures var t := TableAsWritten(ts, run).value;
      var v := run.plotData[k];
      && |t| == 1 + |Kept(run.mask)| && t[0] == Headers(|run.plotData|)
      && |t[1 + r]| == 1 + 2 * |run.plotData|
      && t[1 + r][0] == (if exists j :: 0 <= j < |run.plotData| && r < |run.plotData[j].times| then Value(ts[r]) else Blank)
      && t[1 + r][1 + 2 * k] == (if r < |v.times| then Value(Compress(run.readings, run.mask)[r]) else Blank)
      && t[1 + r][2 + 2 * k] == (if r < |v.times| then Value(v.ratios[r]) else Blank)
  {
    var n := |run.plotData|;
    var count := RowCountAsWritten(ts, run);
    RowsFit(run.plotData, LastColumn(run), count);
    var t := TableAsWritten(ts, run).value;
    assert t[1 + r] == RowAfter(run.plotData, LastColumn(run), r, n);
    RowAfterCells(ts, run.plotData, LastColumn(run), r, n);
    PlotColumns(k);
  }

  /** In the corrected table every value of every series appears: in data row
      `r`, below the length of plot `k`'s series, the grid time, that plot's
      own absorbance and its own ratio. */
  lemma IntendedShowsEverySeries(ts: seq<real>, plots: seq<Series>, k: nat, r: nat)
    requires forall j :: 0 <= j < |plots| ==> Aligned(plots[j]) && OnGrid(ts, plots[j])
    requires k < |plots| && r < |plots[k].times|
    ensures TableIntended(plots).Success?
    ensures var t := TableIntended(plots).value;
      var v := plots[k];
      && 1 + r < |t| && t[0] == Headers(|plots|) && |t[1 + r]| == 1 + 2 * |plots|
      && r < |ts| && t[1 + r][0] == Value(ts[r])
      && t[1 + r][1 + 2 * k] == Value(v.absorbances[r])
      && t[1 + r][2 + 2 * k] == Value(v.ratios[r])
  {
    var n := |plots|;
    var count := Longest(Lengths(plots));
    LongestIsMaximum(Lengths(plots));
    assert Lengths(plots)[k] == |plots[k].times| <= count;
    RowsFit(plots, OwnAbsorbances(plots), count);
    var t := [Headers(n)] + Rows(plots, OwnAbsorbances(plots), count);
    assert TableIntended(plots) == Success(t);
    assert t[1 + r] == RowAfter(plots, OwnAbsorbances(plots), r, n);
    RowAfterCells(ts, plots, OwnAbsorbances(plots), r, n);
    PlotColumns(k);
  }

  /** The corrected table has exactly as many data rows as the longest series. */
  lemma IntendedRowsAreLongestSeries(plots: seq<Series>)
    requires forall j :: 0 <= j < |plots| ==> Aligned(plots[j])
    requires |plots| > 0
    ensures TableIntended(plots).Success?
    ensures var t := TableIntended(plots).value;
      && (forall k :: 0 <= k < |plots| ==> |plots[k].times| < |t|)
      && (exists k :: 0 <= k < |plots| && |t| == 1 + |plots[k].times|)
  {
    var lens := Lengths(plots);
    LongestIsMaximum(lens);
    var t := TableIntended(plots).value;
    assert |t| == 1 + Longest(lens);
    forall k | 0 <= k < |plots|
      ensures |plots[k].times| < |t|
    {
      assert lens[k] == |plots[k].times|;
    }
    var k :| 0 <= k < |plots| && lens[k] == Longest(lens);
    assert |t| == 1 + |plots[k].times|;
  }

  /** The whole analysis with the table builder corrected. */
  function AnalysisIntended(ts: seq<real>, samples: seq<Sample>): Result<seq<seq<Cell>>>
    requires StrictlyIncreasing(ts)
  {
    match Gather(Outcomes(ts, samples), |samples|)
    case Failure(e) => Failure(e)
    case Success(plots) =>
      CollectedSeriesOnGrid(ts, samples);
      TableIntended(plots)
  }

  /** The sample loop followed by the corrected table builder. */
  method RunAnalysisIntended(ts: seq<real>, samples: seq<Sample>) returns (r: Result<seq<seq<Cell>>>)
    requires StrictlyIncreasing(ts)
    ensures r == AnalysisIntended(ts, samples)
  {
    var collected := CollectPlotData(ts, samples);
    if collected.Failure? {
      return Failure(collected.error);
    }
    CollectedSeriesOnGrid(ts, samples);
    r := BuildTableIntended(collected.value.plotData);
  }

  /** Both analyses fail exactly when there is no sample, so no plot to
      tabulate, or some sample has no non-zero reading or not one reading per
      time; the error then names the first such sample. They fail alike. */
  lemma AnalysisOutcome(ts: seq<real>, samples: seq<Sample>)
    requires StrictlyIncreasing(ts)
    ensures Analysis(ts, samples).Success? <==>
      |samples| > 0 && forall k :: 0 <= k < |samples| ==> Usable(ts, samples[k])
    ensures |samples| == 0 ==> Analysis(ts, samples) == Failure(NoPlots)
    ensures |samples| > 0 && Analysis(ts, samples).Failure? ==> exists k ::
      && 0 <= k < |samples| && !Usable(ts, samples[k])
      && Analysis(ts, samples).error == SampleError(ts, samples[k])
      && forall j :: 0 <= j < k ==> Usable(ts, samples[j])
    ensures AnalysisIntended(ts, samples).Success? == Analysis(ts, samples).Success?
    ensures Analysis(ts, samples).Failure? ==> AnalysisIntended(ts, samples) == Analysis(ts, samples)
  {
    CollectOutcome(ts, samples);
  }

  /** As written, the table has one data row per non-zero reading of the last
      sample, and every data row holds its grid time, since the last plot
      reaches every row. The last plot's absorbance cells hold its own
      non-zero readings, in order. */
  lemma AsWrittenRowsFollowLastSample(ts: seq<real>, samples: seq<Sample>, r: nat)
    requires StrictlyIncreasing(ts)
    requires forall k :: 0 <= k < |samples| ==> |samples[k].readings| == |ts|
    requires |samples| > 0 && Analysis(ts, samples).Success?
    requires r < |MaskedTimes(ts, samples[|samples| - 1].readings)|
    ensures var t := Analysis(ts, samples).value;
      var n := |samples|;
      var last := samples[n - 1];
      && |t| == 1 + |MaskedTimes(ts, last.readings)|
      && |t[1 + r]| == 1 + 2 * n
      && t[1 + r][0] == Value(ts[r])
      && t[1 + r][2 * n - 1] == Value(MaskedReadings(last.readings)[r])
  {
    var n := |samples|;
    var plots := Gather(Outcomes(ts, samples), n).value;
    var run := RunOf(samples, plots);
    LastRun(ts, samples);
    assert r < |run.plotData[n - 1].times|;
    AsWrittenCells(ts, run, n - 1, r);
    var t := TableAsWritten(ts, run).value;
    assert t[1 + r][0] == Value(ts[r]);
  }

  /** After a successful sample loop, the analysis tabulates the run it leaves
      behind: every series lies on the grid, and the last one reaches at least
      as many rows as the last sample has non-zero readings. */
  lemma LastRun(ts: seq<real>, samples: seq<Sample>)
    requires StrictlyIncreasing(ts)
    requires forall k :: 0 <= k < |samples| ==> |samples[k].readings| == |ts|
    requires |samples| > 0 && Analysis(ts, samples).Success?
    ensures var n := |samples|;
      var plots := Gather(Outcomes(ts, samples), n).value;
      var run := RunOf(samples, plots);
      var last := samples[n - 1];
      && |plots| == n && |run.mask| == |ts| == |run.readings| && run.plotData == plots
      && (forall j :: 0 <= j < n ==> Aligned(plots[j]) && OnGrid(ts, plots[j]))
      && Analysis(ts, samples) == TableAsWritten(ts, run)
      && |Kept(run.mask)| == |MaskedTimes(ts, last.readings)| <= |plots[n - 1].times|
      && Compress(run.readings, run.mask) == MaskedReadings(last.readings)
  {
    var n := |samples|;
    var last := samples[n - 1];
    CollectOutcome(ts, samples);
    CollectedSeriesOnGrid(ts, samples);
    SeriesShape(ts, last);
  }

  /** With the corrected table, every non-zero reading of every sample appears
      in the row of its grid time, in that sample's absorbance column. */
  lemma IntendedShowsEveryReading(ts: seq<real>, samples: seq<Sample>, k: nat, i: nat)
    requires StrictlyIncreasing(ts)
    requires forall j :: 0 <= j < |samples| ==> |samples[j].readings| == |ts|
    requires AnalysisIntended(ts, samples).Success?
    requires k < |samples| && i < |ts| && samples[k].readings[i] != 0.0
    ensures var t := AnalysisIntended(ts, samples).value;
      && 1 + i < |t| && |t[1 + i]| == 1 + 2 * |samples|
      && t[1 + i][0] == Value(ts[i])
      && t[1 + i][1 + 2 * k] == Value(samples[k].readings[i])
  {
    CollectOutcome(ts, samples);
    CollectedSeriesOnGrid(ts, samples);
    var plots := Gather(Outcomes(ts, samples), |samples|).value;
    assert AnalysisIntended(ts, samples) == TableIntended(plots);
    assert plots[k] == ProcessSample(ts, samples[k]).value;
    NonZeroReadingsReproduced(ts, samples[k]);
    IntendedShowsEverySeries(ts, plots, k, i);
  }
}

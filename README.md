# Photocatalysis kinetics: data preparation and table

The photocatalysis analysis program reads a shared grid of measurement
times and, for every sample (a "plot"), one absorbance reading per time.
A reading of zero means "no measurement". For each sample the program:

- drops the zero readings;
- takes the latest time that still has a reading;
- cuts the time grid at that time;
- resamples the remaining readings onto the cut grid by linear
  interpolation (`np.interp`);
- divides by the first resampled value, giving the ratio A_t / A_0, whose
  logarithm is plotted.

It then prints a table. The table has a header row and then one row per
time index. Each row holds the time and, for each sample, an absorbance
and the log-ratio.

This project models that core in Dafny. There are five modules:

- `ArrayOps` (`array_ops.dfy`) models the numpy whole-array operations the
  step uses:
  - element-wise comparison, which yields a boolean mask;
  - indexing by a boolean mask (`Compress`, with `Kept` the selected
    positions);
  - `np.max`.
- `Interpolation` (`interpolation.dfy`) models `np.interp` over `real`:
  - clamped to the first node's value below it and to the last node's
    value above it;
  - piecewise linear in between.
- `Kinetics` (`kinetics.dfy`) models the per-sample step, `ProcessSample`,
  and the sample loop:
  - the loop is the method `CollectPlotData`;
  - its outcome, all series or the first error, is specified by the
    function `Gather`;
  - the loop also leaves behind the last sample's mask and readings,
    which the table builder goes on to use.
- `Report` (`report.dfy`) models the table builder, both as written and as
  evidently intended:
  - headers are built by `BuildHeaders`;
  - each row is filled in place in an array by `FillRow`;
  - rows are appended one by one by `FillRows`;
  - `RunAnalysis` runs the whole pipeline.

  Cells are abstract values (`Blank`, the headings, or a number), not
  formatted strings.
- `Findings` (`findings.dfy`) is one concrete input on which the table as
  written and as intended differ.

The program stops with an exception in three cases. The model returns an
error for each:

| error | cause |
|---|---|
| `NoValidReadings` | a sample whose readings are all zero, so `np.max` is taken over an empty array |
| `LengthMismatch` | a sample whose number of readings differs from the number of times, so the boolean index has the wrong length |
| `NoPlots` | no samples, so the row count is `max` over an empty collection |

## Model

| member | source | states |
|---|---|---|
| ArrayOps.CompressPicks | photocatalysisv2.py:27-28 | Indexing by a mask picks, as its k-th element, the element at the k-th selected position. So two arrays indexed by the same mask stay paired index for index. The selected positions are exactly those where the mask holds. |
| ArrayOps.KeptIncreasing | photocatalysisv2.py:27-28 | The selected positions are listed in strictly increasing order, so masking keeps the original order. |
| ArrayOps.MaxIsMaximum | photocatalysisv2.py:31 | `np.max` of a non-empty array is one of its elements, and no element exceeds it. |
| ArrayOps.MinBelowIsMinimum | photocatalysisv2.py:33 | The smallest node value is one of the values and exceeds none of them. It bounds the interpolant from below. |
| ArrayOps.CompressPrefix | photocatalysisv2.py:32 | Indexing by a mask that holds on exactly the first p positions yields the first p elements. |
| ArrayOps.DownwardClosedMaskIsPrefix | photocatalysisv2.py:32 | Suppose a mask never holds after a position where it fails, as `time_values <= time_max` on an increasing grid. Then it holds on exactly its first p positions, where p is the number of positions it selects. |
| ArrayOps.KeptMonotone | photocatalysisv2.py:26-32 | A mask that holds wherever another one holds selects at least as many positions. |
| Interpolation.InterpAtNode | photocatalysisv2.py:33 | With strictly increasing nodes, the interpolant at a node is that node's value. |
| Interpolation.InterpWithin | photocatalysisv2.py:33 | The interpolant never leaves the range of the node values, at any query point. |
| Interpolation.SegmentWithin | photocatalysisv2.py:33 | Inside one segment, the straight line through its ends stays between the bounds of their values. |
| Interpolation.LineAsWeights | photocatalysisv2.py:33 | A point of a segment is a weighted mean of the segment's ends. The weights are positive and sum to 1. |
| Kinetics.ProcessSample | photocatalysisv2.py:26-36 | The per-sample step fails exactly when the sample does not have one reading per time or has no non-zero reading. The error names the sample: `LengthMismatch` or `NoValidReadings`. On success it keeps the sample's name and colour. |
| Kinetics.MaskKeepsNonZeroPairs | photocatalysisv2.py:26-28 | Masking keeps exactly the positions with a non-zero reading. The masked times and masked readings have equal length, and their k-th elements come from the same grid position. Every masked reading is non-zero. |
| Kinetics.MaskIdempotent | photocatalysisv2.py:26-28 | No masked reading is zero, and masking the masked readings again returns them unchanged. |
| Kinetics.MaskedTimesIncreasing | photocatalysisv2.py:27-33 | On an increasing grid, the masked times are strictly increasing too. So the nodes handed to `np.interp` are ordered as it requires. |
| Kinetics.TimeMaxIsLatest | photocatalysisv2.py:31 | There is no `time_max` exactly when every reading is zero. Otherwise `time_max` is the time of some non-zero reading, and no non-zero reading has a later time. |
| Kinetics.TruncatedGridCovers | photocatalysisv2.py:32 | The cut grid contains only times up to `time_max` and contains every grid time up to `time_max`. It is at least as long as the list of masked times. |
| Kinetics.TruncatedGridIsPrefix | photocatalysisv2.py:32 | On an increasing grid the cut grid is a non-empty prefix of the grid, and it ends at `time_max`. |
| Kinetics.FirstInterpolatedIsFirstReading | photocatalysisv2.py:33-35 | On an increasing grid, the first interpolated absorbance equals the first non-zero reading. So the divisor at line 35 is never zero. |
| Kinetics.RatiosScaleFirst | photocatalysisv2.py:35 | The first ratio is 1, and every ratio times the first absorbance gives back that absorbance. |
| Kinetics.SeriesShape | photocatalysisv2.py:26-36 | A processed series' times are a prefix of the grid ending at `time_max`, and are at least as many as the non-zero readings. It has one absorbance and one ratio per time. The first absorbance is the first non-zero reading, and the first ratio is 1. |
| Kinetics.NonZeroReadingsReproduced | photocatalysisv2.py:26-33 | Every grid time with a non-zero reading is kept, and the interpolated absorbance there equals that reading. |
| Kinetics.PositiveReadingsGivePositiveRatios | photocatalysisv2.py:33-35 | Suppose no reading is negative. Then every interpolated absorbance and every ratio is positive, so the logarithm at line 35 is defined. |
| Kinetics.ConstantReadingsGiveUnitRatios | photocatalysisv2.py:26-36 | A sample whose readings all equal one non-zero constant keeps the whole grid. Every absorbance is that constant and every ratio is 1. |
| Kinetics.GatherSucceeds | photocatalysisv2.py:18-36 | The loop's outcome is a success exactly when every step succeeds. It then lists the step results in order, one per step. |
| Kinetics.GatherFailsAtFirst | photocatalysisv2.py:18-36 | A failed loop reports the error of the first failing step, and every earlier step succeeded. |
| Kinetics.GatherFailureStops | photocatalysisv2.py:18-36 | Once a step fails, later samples do not change the outcome. The loop stops there. |
| Kinetics.CollectOutcome | photocatalysisv2.py:18-36 | The sample loop succeeds exactly when every sample is usable, and then holds each sample's series in input order. Otherwise it fails with the error of the first sample that is not usable. |
| Kinetics.CollectedSeriesOnGrid | photocatalysisv2.py:18-36 | After a successful loop, every sample had one reading per time. Every collected series is aligned and lies on the grid. |
| Kinetics.CollectPlotData | photocatalysisv2.py:16-36 | The loop method appends one series per sample. Its result equals `Gather` over the per-sample outcomes. On success it leaves behind the last sample's readings and their non-zero mask. |
| Report.HeadersLayout | photocatalysisv2.py:39-45 | The header row has `1 + 2 * num_plots` cells. Column 0 is the time heading. Plot p owns column `2p - 1` for its absorbance heading and column `2p` for its ratio heading. |
| Report.BuildHeaders | photocatalysisv2.py:42-45 | The header loop yields exactly `Headers(n)`. |
| Report.RowAfterCells | photocatalysisv2.py:48-53 | After the first k plots have written into row r, each cell is as follows. The time cell holds the grid time if one of them reaches row r. Plot j's two cells hold its values if j < k and its series reaches row r. Every other cell is blank. |
| Report.FillRow | photocatalysisv2.py:48-53 | Filling a blank array row in place, plot by plot, leaves in it exactly `RowAfter` after all plots. |
| Report.FillRows | photocatalysisv2.py:47-54 | The outer loop yields exactly `Rows(...)`: one freshly allocated and filled row per row index. |
| Report.LongestIsMaximum | photocatalysisv2.py:47 | `max` of the lengths is one of them, and none exceeds it. |
| Report.RowCountAsWritten | photocatalysisv2.py:47 | As written, the row count is the number of non-zero readings of the last sample, whatever the other plots are. |
| Report.BuildTable | photocatalysisv2.py:39-54 | The builder as written yields `TableAsWritten`. It fails with `NoPlots` when there is no plot. |
| Report.AsWrittenCells | photocatalysisv2.py:47-53 | Suppose the table is built as written. It has one row more than the number of positions the leftover mask selects, and the header row comes first. Every data row has `1 + 2n` cells. Row r's time cell is the grid time if some series reaches row r, and blank otherwise. Plot k's absorbance cell is blank exactly when its series does not reach row r, and otherwise holds the last sample's r-th non-zero reading. Plot k's ratio cell is likewise blank or holds its own r-th ratio. |
| Report.AsWrittenRowsFollowLastSample | photocatalysisv2.py:47-52 | Suppose the whole analysis succeeds. The table as written has one data row per non-zero reading of the last sample. Every data row holds its grid time, because the last plot reaches every row. The last plot's absorbance cells are its own non-zero readings in order, so the index at line 52 is always in range. |
| Report.LastRun | photocatalysisv2.py:18-47 | A successful analysis tabulates the run the loop leaves behind. All series are on the grid. The mask count equals the last sample's non-zero count, which does not exceed the last series' length. |
| Report.RunAnalysis | photocatalysisv2.py:18-54 | The sample loop followed by the table builder yields `Analysis`. |
| Report.AnalysisOutcome | photocatalysisv2.py:18-54 | The analysis fails exactly when there are no samples (`NoPlots`) or some sample is not usable. In the second case the error is that of the first such sample. The corrected analysis fails on the same inputs, with the same error. |
| Report.BuildTableIntended | photocatalysisv2.py:39-54 | The corrected builder yields `TableIntended`: as many rows as the longest series, and each plot's own absorbances in its column. |
| Report.RunAnalysisIntended | photocatalysisv2.py:18-54 | The sample loop followed by the corrected builder yields `AnalysisIntended`. |
| Report.IntendedShowsEverySeries | photocatalysisv2.py:47-53 | In the corrected table, data row r of plot k, wherever its series reaches r, holds three cells: the grid time, the plot's own r-th absorbance and its own r-th ratio. |
| Report.IntendedRowsAreLongestSeries | photocatalysisv2.py:47 | The corrected table has a row for every time of every series, and no more rows than the longest series. |
| Report.IntendedShowsEveryReading | photocatalysisv2.py:26-53 | In the corrected table, every non-zero reading of every sample appears in the row of its time, in that sample's absorbance column. |
| Findings.DippedSampleSeries | photocatalysisv2.py:26-36 | On grid 0, 1, 2, readings 1, 0, 0.5 give the following series. Its times are 0, 1, 2, and its absorbances and ratios are both 1, 0.75, 0.5. |
| Findings.RowsDroppedExample | photocatalysisv2.py:47 | On that sample the table as written has 2 data rows and drops time 2. The corrected table has 3. |
| Findings.AbsorbanceMisplacedExample | photocatalysisv2.py:52 | On that sample, in the row for time 1, the absorbance cell as written shows 0.5. The corrected table shows 0.75. |

## Left out

- Console input, number parsing and prompts (photocatalysisv2.py:6-23) are left out. The grid, the sample names, colours and readings are parameters, and `num_plots` is the number of samples.
- The logarithm at line 35 is left out. The model computes the ratio A_t / A_0, whose logarithm the program stores. No table cell or lemma depends on the logarithm beyond its argument.
- Number formatting (`:.3f` at lines 51-53) is left out. Cells hold the number itself.
- Printing the table (lines 57-60), plotting (lines 63-85 and 101), and the regression and its printout (lines 87-99) are left out. They are output and foreign floating-point routines.
- Floating point is modelled as exact `real` arithmetic. Rounding, NaN and infinity are not modelled.
- The model requires a strictly increasing time grid, as `np.interp` requires its nodes to be. The program does not check this; on such input numpy returns values without raising, and the model does not describe them.
- `Interpolation.InterpAt` covers `np.interp` only with its default clamping (no `left`, `right` or `period` arguments), which is how the program calls it.
- `Kinetics.Series` carries the interpolated absorbances beside the times and ratios, while the program's tuple holds only the name, colour, times and log-ratios. The as-written table never reads this extra field; only the corrected table does.
- Exceptions are modelled as an error result, carried out of the sample loop and the analysis. The program's exception ends it.

## Findings

| source | as written | input that shows it | evidently intended | confidence | as-written member | corrected member |
|---|---|---|---|---|---|---|
| photocatalysisv2.py:47 | The row count is `len(time_values[mask])` for every plot. `mask` is left over from the last sample, so the count is the last sample's number of non-zero readings. | Grid 0, 1, 2 and one sample with readings 1, 0, 0.5. The series has 3 times, but the table as written has 2 data rows, so time 2 is never printed. | One row per time of the longest series. | high; not executed | Report.TableAsWritten, with Findings.RowsDroppedExample | Report.TableIntended, with Report.IntendedRowsAreLongestSeries |
| photocatalysisv2.py:52 | Every plot's absorbance cell reads `absorbance_values[mask][row_idx]`: the last sample's raw non-zero readings, counted by their position among those readings. | The same input. In the row for time 1, the absorbance cell shows 0.5, the reading taken at time 2, while the interpolated absorbance at time 1 is 0.75. | Each plot's own interpolated absorbance at that row's time. | high; not executed | Report.TableAsWritten, with Findings.AbsorbanceMisplacedExample | Report.TableIntended, with Report.IntendedShowsEverySeries and Report.IntendedShowsEveryReading |

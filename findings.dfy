/** A worked example on which the table builder as written and as evidently
    intended differ: one sample with a zero reading in the middle of the grid. */
module Findings {
  import opened ArrayOps
  import opened Interpolation
  import opened Kinetics
  import opened Report

  /** Three readings, one time unit apart. */
  const Grid: seq<real> := [0.0, 1.0, 2.0]

  /** A sample whose reading at time 1 is missing (recorded as zero). */
  const Dipped: Sample := Sample("A", "red", [1.0, 0.0, 0.5])

  /** Its series: the missing reading is interpolated between its neighbours. */
  const DippedSeries: Series := Series("A", "red", [0.0, 1.0, 2.0], [1.0, 0.75, 0.5], [1.0, 0.75, 0.5])

  /** `Dipped`'s mask selects positions 0 and 2. */
  lemma DippedMask()
    ensures NonZeroMask(Dipped.readings) == [true, false, true]
    ensures Kept([true, false, true]) == [0, 2]
    ensures Compress(Grid, [true, false, true]) == [0.0, 2.0]
    ensures Compress(Dipped.readings, [true, false, true]) == [1.0, 0.5]
  {
    var m := [true, false, true];
    assert KeptBelow(m, 1) == [0];
    assert KeptBelow(m, 2) == [0];
    assert KeptBelow(m, 3) == [0, 2];
    CompressPicks(Grid, m);
    CompressPicks(Dipped.readings, m);
  }

  /** Every grid time is at most 2, so cutting the grid at 2 keeps all of it. */
  lemma WholeGridKept()
    ensures TruncatedGrid(Grid, 2.0) == Grid
  {
    CompressPrefix(Grid, AtMostMask(Grid, 2.0), 3);
  }

  /** The sample loop keeps the whole grid for `Dipped` and fills in 0.75 at time 1. */
  lemma DippedSampleSeries()
    ensures StrictlyIncreasing(Grid)
    ensures ProcessSample(Grid, Dipped) == Success(DippedSeries)
  {
    DippedMask();
    WholeGridKept();
    assert MaskedTimes(Grid, Dipped.readings) == [0.0, 2.0];
    assert MaskedReadings(Dipped.readings) == [1.0, 0.5];
    assert Max([0.0, 2.0]) == 2.0;
    assert TimeMax(Grid, Dipped.readings) == Some(2.0);
    assert InterpAt(0.0, [0.0, 2.0], [1.0, 0.5]) == 1.0;
    assert InterpAt(1.0, [0.0, 2.0], [1.0, 0.5]) == 0.75;
    assert InterpAt(2.0, [0.0, 2.0], [1.0, 0.5]) == 0.5;
    assert Interp(Grid, [0.0, 2.0], [1.0, 0.5]) == [1.0, 0.75, 0.5];
    assert Ratios([1.0, 0.75, 0.5]) == [1.0, 0.75, 0.5];
  }

  /** The sample loop on `Dipped` alone yields its series and leaves its mask behind. */
  lemma DippedRun()
    ensures StrictlyIncreasing(Grid)
    ensures Gather(Outcomes(Grid, [Dipped]), 1) == Success([DippedSeries])
    ensures RunOf([Dipped], [DippedSeries]) == Run([DippedSeries], [true, false, true], [1.0, 0.0, 0.5])
  {
    DippedSampleSeries();
    DippedMask();
    CollectOutcome(Grid, [Dipped]);
    var g := Gather(Outcomes(Grid, [Dipped]), 1);
    assert !AllZero([Dipped][0].readings);
    assert g.value[0] == DippedSeries;
    assert g.value == [DippedSeries];
  }

  /** As written the table stops after two data rows, dropping time 2, while
      the series and the corrected table have three. */
  lemma RowsDroppedExample()
    ensures Analysis(Grid, [Dipped]).Success? && |Analysis(Grid, [Dipped]).value| == 1 + 2
    ensures AnalysisIntended(Grid, [Dipped]).Success? && |AnalysisIntended(Grid, [Dipped]).value| == 1 + 3
  {
    DippedRun();
    var run := RunOf([Dipped], [DippedSeries]);
    DippedMask();
    AsWrittenCells(Grid, run, 0, 0);
    IntendedRowsAreLongestSeries([DippedSeries]);
  }

  /** In the row for time 1, as written, the absorbance cell shows 0.5, the
      second non-zero raw reading, where the series holds 0.75 at that time. */
  lemma AbsorbanceMisplacedExample()
    ensures var t := Analysis(Grid, [Dipped]);
      t.Success? && |t.value| == 3 && |t.value[2]| == 3
      && t.value[2][0] == Value(1.0) && t.value[2][1] == Value(0.5)
    ensures var t := AnalysisIntended(Grid, [Dipped]);
      t.Success? && |t.value| == 4 && |t.value[2]| == 3
      && t.value[2][0] == Value(1.0) && t.value[2][1] == Value(0.75)
  {
    DippedRun();
    var run := RunOf([Dipped], [DippedSeries]);
    DippedMask();
    AsWrittenCells(Grid, run, 0, 1);
    IntendedRowsAreLongestSeries([DippedSeries]);
    IntendedShowsEverySeries(Grid, [DippedSeries], 0, 1);
  }
}

/** The per-sample data preparation of the kinetics analysis: drop the
    readings that are zero ("not yet measured"), find the last time with a
    valid reading, cut the shared time grid there, resample the valid readings
    onto the cut grid by linear interpolation and divide by the first resampled
    value to get the degradation ratio A_t / A_0. */
module Kinetics {
  import opened ArrayOps
  import opened Interpolation

  datatype Option<T> = None | Some(value: T)

  /** Why a run stops: a sample without a single non-zero reading (the maximum
      of an empty array), a sample with more or fewer readings than there are
      times (a boolean index of the wrong length), or no samples at all (the
      maximum over an empty collection when the table's row count is taken). */
  datatype Error = NoValidReadings(sample: string) | LengthMismatch(sample: string) | NoPlots

  datatype Result<T> = Success(value: T) | Failure(error: Error)

  /** One sample as entered: its name, its plot colour and one absorbance
      reading per time of the shared grid. */
  datatype Sample = Sample(name: string, color: string, readings: seq<real>)

  /** What the per-sample step produces: the cut grid, the interpolated
      absorbances on it and the ratios A_t / A_0 (whose logarithm is plotted). */
  datatype Series = Series(name: string, color: string, times: seq<real>, absorbances: seq<real>, ratios: seq<real>)

  /** One absorbance and one ratio per kept time. */
  predicate Aligned(v: Series) {
    |v.absorbances| == |v.times| && |v.ratios| == |v.times|
  }

  /** The series' times are the first times of the grid. */
  predicate OnGrid(ts: seq<real>, v: Series) {
    |v.times| <= |ts| && v.times == ts[..|v.times|]
  }

  /** What the sample loop leaves behind: the processed series in input order
      and, still in scope after the loop, the mask and the raw readings of the
      last sample. */
  datatype Run = Run(plotData: seq<Series>, mask: seq<bool>, readings: seq<real>)

  predicate AllZero(readings: seq<real>) {
    forall i :: 0 <= i < |readings| ==> readings[i] == 0.0
  }

  /** The times at which a sample has a non-zero reading. */
  function MaskedTimes(ts: seq<real>, readings: seq<real>): seq<real>
    requires |ts| == |readings|
  {
    Compress(ts, NonZeroMask(readings))
  }

  /** The non-zero readings of a sample, in order. */
  function MaskedReadings(readings: seq<real>): seq<real> {
    Compress(readings, NonZeroMask(readings))
  }

  /** `np.max` of the masked times: the latest time with a non-zero reading,
      or nothing when every reading is zero (where `np.max` fails). */
  function TimeMax(ts: seq<real>, readings: seq<real>): Option<real>
    requires |ts| == |readings|
  {
    var times := MaskedTimes(ts, readings);
    if |times| == 0 then None else Some(Max(times))
  }

  /** The grid times that are at most `tmax`. */
  function TruncatedGrid(ts: seq<real>, tmax: real): seq<real> {
    Compress(ts, AtMostMask(ts, tmax))
  }

  /** Every value divided by the first one. */
  function Ratios(a: seq<real>): (r: seq<real>)
    requires |a| > 0 && a[0] != 0.0
    ensures |r| == |a|
  {
    seq(|a|, k requires 0 <= k < |a| => a[k] / a[0])
  }

  /** A sample the per-sample step accepts: one reading per time, not all zero. */
  predicate Usable(ts: seq<real>, s: Sample) {
    |s.readings| == |ts| && !AllZero(s.readings)
  }

  /** The error the per-sample step stops with on a sample it does not accept. */
  function SampleError(ts: seq<real>, s: Sample): Error {
    if |s.readings| != |ts| then LengthMismatch(s.name) else NoValidReadings(s.name)
  }

  /** The body of the sample loop: mask out the zero readings, find the
      latest valid time, cut the grid there, interpolate and take ratios. */
  function ProcessSample(ts: seq<real>, s: Sample): (r: Result<Series>)
    requires StrictlyIncreasing(ts)
    ensures r.Failure? <==> !Usable(ts, s)
    ensures r.Failure? ==> r.error == SampleError(ts, s)
    ensures r.Success? ==> r.value.name == s.name && r.value.color == s.color
  {
    if |s.readings| != |ts| then Failure(LengthMismatch(s.name))
    else
      TimeMaxIsLatest(ts, s.readings);
      match TimeMax(ts, s.readings)
      case None => Failure(NoValidReadings(s.name))
      case Some(tmax) => Success(SeriesUpTo(ts, s, tmax))
  }

  /** The series of a sample whose latest valid reading is at `tmax`. */
  function SeriesUpTo(ts: seq<real>, s: Sample, tmax: real): Series
    requires |s.readings| == |ts| && StrictlyIncreasing(ts) && TimeMax(ts, s.readings) == Some(tmax)
  {
    var grid := TruncatedGrid(ts, tmax);
    var absorbances := Interp(grid, MaskedTimes(ts, s.readings), MaskedReadings(s.readings));
    FirstInterpolatedIsFirstReading(ts, s.readings, tmax);
    Series(s.name, s.color, grid, absorbances, Ratios(absorbances))
  }

  /** Masking keeps exactly the positions with a non-zero reading, in their
      original order, with each time still paired with its reading. */
  lemma MaskKeepsNonZeroPairs(ts: seq<real>, readings: seq<real>)
    requires |ts| == |readings|
    ensures var ks := Kept(NonZeroMask(readings));
      && ListsSelected(NonZeroMask(readings), |readings|, ks)
      && |MaskedTimes(ts, readings)| == |ks| == |MaskedReadings(readings)|
      && (forall k :: 0 <= k < |ks| ==>
            MaskedTimes(ts, readings)[k] == ts[ks[k]] && MaskedReadings(readings)[k] == readings[ks[k]] != 0.0)
  {
    var m := NonZeroMask(readings);
    CompressPicks(ts, m);
    CompressPicks(readings, m);
  }

  /** No masked reading is zero, so masking a second time changes nothing. */
  lemma {:induction false} MaskIdempotent(readings: seq<real>)
    ensures forall k :: 0 <= k < |MaskedReadings(readings)| ==> MaskedReadings(readings)[k] != 0.0
    ensures MaskedReadings(MaskedReadings(readings)) == MaskedReadings(readings)
  {
    var once := MaskedReadings(readings);
    CompressPicks(readings, NonZeroMask(readings));
    CompressPrefix(once, NonZeroMask(once), |once|);
  }

  /** There is no latest valid time exactly when every reading is zero;
      otherwise it is the time of a non-zero reading and no non-zero reading
      comes later. */
  lemma TimeMaxIsLatest(ts: seq<real>, readings: seq<real>)
    requires |ts| == |readings|
    ensures TimeMax(ts, readings).None? <==> AllZero(readings)
    ensures TimeMax(ts, readings).Some? ==>
      var tmax := TimeMax(ts, readings).value;
      && (exists i :: 0 <= i < |ts| && readings[i] != 0.0 && ts[i] == tmax)
      && (forall i :: 0 <= i < |ts| && readings[i] != 0.0 ==> ts[i] <= tmax)
  {
    var times := MaskedTimes(ts, readings);
    var ks := Kept(NonZeroMask(readings));
    MaskKeepsNonZeroPairs(ts, readings);
    if |times| == 0 {
      forall i | 0 <= i < |readings| ensures readings[i] == 0.0 {
        assert i !in ks;
      }
    } else {
      var tmax := Max(times);
      MaxIsMaximum(times);
      var k :| 0 <= k < |times| && times[k] == tmax;
      assert readings[ks[k]] != 0.0 && ts[ks[k]] == tmax;
      forall i | 0 <= i < |ts| && readings[i] != 0.0 ensures ts[i] <= tmax {
        assert NonZeroMask(readings)[i];
        var j :| 0 <= j < |ks| && ks[j] == i;
        assert times[j] == ts[i];
      }
    }
  }

  /** Each value divided by the first: the first ratio is 1 and every ratio
      scales the first value back to its own. */
  lemma RatiosScaleFirst(a: seq<real>)
    requires |a| > 0 && a[0] != 0.0
    ensures Ratios(a)[0] == 1.0
    ensures forall k :: 0 <= k < |a| ==> Ratios(a)[k] * a[0] == a[k]
  {
  }

  /** The cut grid holds exactly the grid times up to `tmax`, so it is at
      least as long as the masked series. */
  lemma TruncatedGridCovers(ts: seq<real>, readings: seq<real>, tmax: real)
    requires |ts| == |readings| && TimeMax(ts, readings) == Some(tmax)
    ensures forall k :: 0 <= k < |TruncatedGrid(ts, tmax)| ==> TruncatedGrid(ts, tmax)[k] <= tmax
    ensures forall i :: 0 <= i < |ts| && ts[i] <= tmax ==> ts[i] in TruncatedGrid(ts, tmax)
    ensures |MaskedTimes(ts, readings)| <= |TruncatedGrid(ts, tmax)|
  {
    var m, cut := NonZeroMask(readings), AtMostMask(ts, tmax);
    var grid := TruncatedGrid(ts, tmax);
    CompressPicks(ts, cut);
    TimeMaxIsLatest(ts, readings);
    forall i | 0 <= i < |ts| && ts[i] <= tmax
      ensures ts[i] in grid
    {
      assert cut[i];
      var j :| 0 <= j < |Kept(cut)| && Kept(cut)[j] == i;
      assert grid[j] == ts[i];
    }
    KeptMonotone(m, cut, |m|);
  }

  /** On an increasing grid the cut grid is a prefix of it, and its last time is `tmax`. */
  lemma TruncatedGridIsPrefix(ts: seq<real>, readings: seq<real>, tmax: real)
    requires |ts| == |readings| && StrictlyIncreasing(ts) && TimeMax(ts, readings) == Some(tmax)
    ensures var grid := TruncatedGrid(ts, tmax);
      0 < |grid| <= |ts| && grid == ts[..|grid|] && grid[|grid| - 1] == tmax
  {
    var cut := AtMostMask(ts, tmax);
    DownwardClosedMaskIsPrefix(cut);
    var p := |Kept(cut)|;
    CompressPrefix(ts, cut, p);
    TimeMaxIsLatest(ts, readings);
    var i :| 0 <= i < |ts| && readings[i] != 0.0 && ts[i] == tmax;
    assert cut[i] && i < p;
    assert cut[p - 1];
    assert ts[i] <= ts[p - 1];
  }

  /** On an increasing grid the first interpolated absorbance is the first
      non-zero reading: the first grid time lies at or before the first node. */
  lemma FirstInterpolatedIsFirstReading(ts: seq<real>, readings: seq<real>, tmax: real)
    requires |ts| == |readings| && StrictlyIncreasing(ts) && TimeMax(ts, readings) == Some(tmax)
    ensures var grid := TruncatedGrid(ts, tmax);
      var a := Interp(grid, MaskedTimes(ts, readings), MaskedReadings(readings));
      0 < |a| && a[0] == MaskedReadings(readings)[0] != 0.0
  {
    TruncatedGridIsPrefix(ts, readings, tmax);
    MaskKeepsNonZeroPairs(ts, readings);
    var grid := TruncatedGrid(ts, tmax);
    var times := MaskedTimes(ts, readings);
    var i := Kept(NonZeroMask(readings))[0];
    assert grid[0] == ts[0] <= ts[i] == times[0];
  }

  /** A processed sample keeps a prefix of the grid that ends at its latest
      valid time and is at least as long as its list of valid times; it has
      one absorbance and one ratio per kept time, the first absorbance is its
      first non-zero reading, and the ratios are the absorbances divided by
      that first one, so the first ratio is 1. */
  lemma SeriesShape(ts: seq<real>, s: Sample)
    requires |s.readings| == |ts| && StrictlyIncreasing(ts) && ProcessSample(ts, s).Success?
    ensures var v := ProcessSample(ts, s).value;
      && 0 < |MaskedTimes(ts, s.readings)| <= |v.times| <= |ts| && v.times == ts[..|v.times|]
      && v.times[|v.times| - 1] == TimeMax(ts, s.readings).value
      && |v.absorbances| == |v.times| && |v.ratios| == |v.times|
      && v.absorbances[0] == MaskedReadings(s.readings)[0] != 0.0
      && v.ratios == Ratios(v.absorbances) && v.ratios[0] == 1.0
  {
    TimeMaxIsLatest(ts, s.readings);
    var tmax := TimeMax(ts, s.readings).value;
    TruncatedGridCovers(ts, s.readings, tmax);
    TruncatedGridIsPrefix(ts, s.readings, tmax);
    FirstInterpolatedIsFirstReading(ts, s.readings, tmax);
    RatiosScaleFirst(ProcessSample(ts, s).value.absorbances);
  }

  /** Every grid time where the sample has a non-zero reading is kept, and
      there the interpolated absorbance is that reading. */
  lemma NonZeroReadingsReproduced(ts: seq<real>, s: Sample)
    requires |s.readings| == |ts| && StrictlyIncreasing(ts)
    requires ProcessSample(ts, s).Success?
    ensures var v := ProcessSample(ts, s).value;
      forall i :: 0 <= i < |ts| && s.readings[i] != 0.0 ==> i < |v.times| && v.absorbances[i] == s.readings[i]
  {
    TimeMaxIsLatest(ts, s.readings);
    SeriesShape(ts, s);
    var v := ProcessSample(ts, s).value;
    var m := NonZeroMask(s.readings);
    var times, readings := MaskedTimes(ts, s.readings), MaskedReadings(s.readings);
    var ks := Kept(m);
    MaskKeepsNonZeroPairs(ts, s.readings);
    MaskedTimesIncreasing(ts, s.readings);
    assert v.absorbances == Interp(v.times, times, readings);
    forall i | 0 <= i < |ts| && s.readings[i] != 0.0
      ensures i < |v.times| && v.absorbances[i] == s.readings[i]
    {
      assert ts[i] <= ts[|v.times| - 1];
      assert m[i];
      var k :| 0 <= k < |ks| && ks[k] == i;
      InterpAtNode(times, readings, k);
      assert v.times[i] == ts[i] == times[k];
    }
  }

  /** On an increasing grid the times of the non-zero readings increase too. */
  lemma MaskedTimesIncreasing(ts: seq<real>, readings: seq<real>)
    requires |ts| == |readings| && StrictlyIncreasing(ts)
    ensures StrictlyIncreasing(MaskedTimes(ts, readings))
  {
    var m := NonZeroMask(readings);
    var times := MaskedTimes(ts, readings);
    var ks := Kept(m);
    MaskKeepsNonZeroPairs(ts, readings);
    KeptIncreasing(m, |m|);
    forall j, k | 0 <= j < k < |times| ensures times[j] < times[k] {
      assert ks[j] < ks[k];
    }
  }

  /** Readings that are non-negative (as absorbances are) give positive
      interpolated absorbances and positive ratios, so their logarithm exists. */
  lemma PositiveReadingsGivePositiveRatios(ts: seq<real>, s: Sample)
    requires |s.readings| == |ts| && StrictlyIncreasing(ts)
    requires ProcessSample(ts, s).Success?
    requires forall i :: 0 <= i < |s.readings| ==> s.readings[i] >= 0.0
    ensures var v := ProcessSample(ts, s).value;
      forall k :: 0 <= k < |v.times| ==> v.absorbances[k] > 0.0 && v.ratios[k] > 0.0
  {
    SeriesShape(ts, s);
    var v := ProcessSample(ts, s).value;
    var times, readings := MaskedTimes(ts, s.readings), MaskedReadings(s.readings);
    MaskKeepsNonZeroPairs(ts, s.readings);
    var lo, hi := MinBelow(readings, |readings|), Max(readings);
    MinBelowIsMinimum(readings, |readings|);
    MaxIsMaximum(readings);
    assert lo > 0.0;
    assert v.absorbances == Interp(v.times, times, readings);
    forall k | 0 <= k < |v.times|
      ensures v.absorbances[k] > 0.0 && v.ratios[k] > 0.0
    {
      InterpWithin(v.times[k], times, readings, lo, hi);
      InterpWithin(v.times[0], times, readings, lo, hi);
      QuotientPositive(v.absorbances[k], v.absorbances[0]);
    }
  }

  /** A sample whose readings all equal one non-zero constant keeps the whole
      grid and has every ratio equal to 1 (a flat degradation line). */
  lemma ConstantReadingsGiveUnitRatios(ts: seq<real>, s: Sample, c: real)
    requires |s.readings| == |ts| > 0 && StrictlyIncreasing(ts)
    requires c != 0.0 && forall i :: 0 <= i < |s.readings| ==> s.readings[i] == c
    ensures ProcessSample(ts, s).Success?
    ensures var v := ProcessSample(ts, s).value;
      v.times == ts && forall k :: 0 <= k < |ts| ==> v.absorbances[k] == c && v.ratios[k] == 1.0
  {
    assert !AllZero(s.readings) by {
      assert s.readings[0] != 0.0;
    }
    SeriesShape(ts, s);
    NonZeroReadingsReproduced(ts, s);
    var v := ProcessSample(ts, s).value;
    assert s.readings[|ts| - 1] != 0.0;
    assert |v.times| == |ts|;
    RatiosScaleFirst(v.absorbances);
  }

  /** The outcome of the sample loop on the per-sample results `rs[0]`, ...,
      `rs[n - 1]`: all their values in order, or the error of the first failure. */
  function Gather<T>(rs: seq<Result<T>>, n: nat): Result<seq<T>>
    requires n <= |rs|
  {
    if n == 0 then Success([])
    else
      match Gather(rs, n - 1)
      case Failure(e) => Failure(e)
      case Success(vs) =>
        match rs[n - 1]
        case Failure(e) => Failure(e)
        case Success(v) => Success(vs + [v])
  }

  /** Gathering succeeds exactly when every result does, and then lists their values in order. */
  lemma {:induction false} GatherSucceeds<T>(rs: seq<Result<T>>, n: nat)
    requires n <= |rs|
    ensures Gather(rs, n).Success? <==> forall k :: 0 <= k < n ==> rs[k].Success?
    ensures Gather(rs, n).Success? ==>
      |Gather(rs, n).value| == n && forall k :: 0 <= k < n ==> rs[k] == Success(Gather(rs, n).value[k])
  {
    if n > 0 {
      GatherSucceeds(rs, n - 1);
      if Gather(rs, n).Success? {
        var vs := Gather(rs, n - 1).value;
        assert Gather(rs, n).value == vs + [rs[n - 1].value];
      }
    }
  }

  /** A failed gathering reports the error of the first failed result. */
  lemma {:induction false} GatherFailsAtFirst<T>(rs: seq<Result<T>>, n: nat)
    requires n <= |rs| && Gather(rs, n).Failure?
    ensures exists k ::
      && 0 <= k < n && rs[k] == Failure(Gather(rs, n).error)
      && forall j :: 0 <= j < k ==> rs[j].Success?
  {
    if Gather(rs, n - 1).Failure? {
      GatherFailsAtFirst(rs, n - 1);
    } else {
      GatherSucceeds(rs, n - 1);
      assert rs[n - 1] == Failure(Gather(rs, n).error);
      assert forall j :: 0 <= j < n - 1 ==> rs[j].Success?;
    }
  }

  /** Once a result fails, the results after it do not change the outcome. */
  lemma {:induction false} GatherFailureStops<T>(rs: seq<Result<T>>, n: nat, m: nat)
    requires n <= m <= |rs| && Gather(rs, n).Failure?
    ensures Gather(rs, m) == Gather(rs, n)
    decreases m
  {
    if n < m {
      GatherFailureStops(rs, n, m - 1);
    }
  }

  /** The per-sample results, in input order. */
  function Outcomes(ts: seq<real>, samples: seq<Sample>): (rs: seq<Result<Series>>)
    requires StrictlyIncreasing(ts)
    ensures |rs| == |samples|
  {
    seq(|samples|, k requires 0 <= k < |samples| => ProcessSample(ts, samples[k]))
  }

  /** The sample loop succeeds exactly when every sample has a non-zero
      reading and one reading per time, and then holds one series per sample
      in input order; otherwise it stops at the first sample that has not. */
  lemma CollectOutcome(ts: seq<real>, samples: seq<Sample>)
    requires StrictlyIncreasing(ts)
    ensures var g := Gather(Outcomes(ts, samples), |samples|);
      && (g.Success? <==> forall k :: 0 <= k < |samples| ==> Usable(ts, samples[k]))
      && (g.Success? ==>
            && |g.value| == |samples|
            && forall k :: 0 <= k < |samples| ==> ProcessSample(ts, samples[k]) == Success(g.value[k]))
      && (g.Failure? ==> exists k ::
            && 0 <= k < |samples| && !Usable(ts, samples[k]) && g.error == SampleError(ts, samples[k])
            && forall j :: 0 <= j < k ==> Usable(ts, samples[j]))
  {
    var rs := Outcomes(ts, samples);
    GatherSucceeds(rs, |rs|);
    forall k | 0 <= k < |samples|
      ensures rs[k] == ProcessSample(ts, samples[k])
      ensures rs[k].Success? <==> Usable(ts, samples[k])
    {
    }
    if Gather(rs, |rs|).Failure? {
      GatherFailsAtFirst(rs, |rs|);
      var k :| 0 <= k < |rs| && rs[k] == Failure(Gather(rs, |rs|).error) && forall j :: 0 <= j < k ==> rs[j].Success?;
      assert !Usable(ts, samples[k]);
    }
  }

  /** After a successful sample loop every sample had one reading per time,
      and every collected series has one absorbance and one ratio per time,
      its times being the first times of the grid. */
  lemma CollectedSeriesOnGrid(ts: seq<real>, samples: seq<Sample>)
    requires StrictlyIncreasing(ts)
    requires Gather(Outcomes(ts, samples), |samples|).Success?
    ensures forall k :: 0 <= k < |samples| ==> |samples[k].readings| == |ts|
    ensures var plots := Gather(Outcomes(ts, samples), |samples|).value;
      |plots| == |samples| && forall k :: 0 <= k < |plots| ==> Aligned(plots[k]) && OnGrid(ts, plots[k])
  {
    CollectOutcome(ts, samples);
    var plots := Gather(Outcomes(ts, samples), |samples|).value;
    forall k | 0 <= k < |plots|
      ensures Aligned(plots[k]) && OnGrid(ts, plots[k])
    {
      SeriesShape(ts, samples[k]);
    }
  }

  /** The readings of the last sample, or none when there is no sample. */
  function LastReadings(samples: seq<Sample>): seq<real> {
    if |samples| == 0 then [] else samples[|samples| - 1].readings
  }

  /** The sample loop: process the samples in input order, appending each
      series; the first sample without a valid reading stops the run. */
  method CollectPlotData(ts: seq<real>, samples: seq<Sample>) returns (r: Result<Run>)
    requires StrictlyIncreasing(ts)
    ensures match r
      case Failure(e) => Gather(Outcomes(ts, samples), |samples|) == Failure(e)
      case Success(run) =>
        && Gather(Outcomes(ts, samples), |samples|) == Success(run.plotData)
        && run.readings == LastReadings(samples) && run.mask == NonZeroMask(run.readings)
  {
    var plotData: seq<Series> := [];
    var mask: seq<bool> := [];
    var readings: seq<real> := [];
    var i := 0;
    while i < |samples|
      invariant 0 <= i <= |samples|
      invariant Gather(Outcomes(ts, samples), i) == Success(plotData)
      invariant readings == LastReadings(samples[..i]) && mask == NonZeroMask(readings)
    {
      readings := samples[i].readings;
      mask := NonZeroMask(readings);
      var s := ProcessSample(ts, samples[i]);
      assert Outcomes(ts, samples)[i] == s;
      if s.Failure? {
        GatherFailureStops(Outcomes(ts, samples), i + 1, |samples|);
        return Failure(s.error);
      }
      plotData := plotData + [s.value];
      i := i + 1;
    }
    assert samples[..i] == samples;
    return Success(Run(plotData, mask, readings));
  }
}

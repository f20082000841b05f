/** The analysis script as a whole: load, add the five-sample moving average,
    filter the readings below 20 and detect accelerating downward slopes, all
    over the same frame. Peak and low detection, charting and display are not
    part of this model. */
module Dashboard {
  import opened Wrappers
  import opened Series
  import opened Rolling
  import opened Threshold
  import opened Slopes

  /** Window of the moving-average column. */
  const MovingAverageWindow: nat := 5

  /** Readings strictly below this voltage are listed. */
  const VoltageThreshold: real := 20.0

  /** Adding the moving-average column: the `Timestamp` and `Values` columns are
      carried over unchanged, and the new column is the trailing mean. */
  function AddMovingAverage<T>(samples: seq<Sample<T>>): (df: seq<Row<T>>)
    ensures |df| == |samples|
    ensures forall i :: 0 <= i < |df| ==>
              df[i].timestamp == samples[i].timestamp && df[i].value == samples[i].value
    ensures Samples(df) == samples
    ensures Values(df) == SampleValues(samples)
    ensures forall i :: 0 <= i < |df| && i + 1 < MovingAverageWindow ==> df[i].movingAverage == None
    ensures forall i :: MovingAverageWindow <= i + 1 <= |df| ==>
              df[i].movingAverage == Some(WindowMean(SampleValues(samples), MovingAverageWindow, i))
  {
    var ma := TrailingMean(SampleValues(samples), MovingAverageWindow);
    var df := seq(|samples|, i requires 0 <= i < |samples| => Row(samples[i].timestamp, samples[i].value, ma[i]));
    assert Samples(df) == samples;
    df
  }

  /** What the page displays, apart from peaks and lows. */
  datatype Report<T> = Report(frame: seq<Row<T>>, belowThreshold: seq<Kept<T>>, accelerations: seq<T>)

  /** The script's analyses, in source order, each over the frame that already
      holds the moving-average column. Every result is stated in terms of the
      loaded samples: the added column changes nothing the later analyses read. */
  method Analyse<T>(samples: seq<Sample<T>>) returns (report: Report<T>)
    ensures report.frame == AddMovingAverage(samples)
    ensures report.belowThreshold == BelowThreshold(report.frame, VoltageThreshold)
    ensures forall j :: 0 <= j < |report.belowThreshold| ==>
              var k := report.belowThreshold[j];
              k.index < |samples| && k.row == report.frame[k.index]
              && k.row.timestamp == samples[k.index].timestamp && k.row.value == samples[k.index].value
    ensures StrictlyIncreasing(Indices(report.belowThreshold))
    ensures forall i: nat :: i in Indices(report.belowThreshold) <==>
              i < |samples| && samples[i].value < VoltageThreshold
    ensures |report.accelerations| == |AcceleratingPositions(SampleValues(samples))|
    ensures forall j :: 0 <= j < |report.accelerations| ==>
              var k := AcceleratingPositions(SampleValues(samples))[j];
              k < |samples| && report.accelerations[j] == samples[k].timestamp
  {
    var df := AddMovingAverage(samples);
    var below := BelowThreshold(df, VoltageThreshold);
    var events, positions := FindAcceleratingSlopes(df);
    report := Report(df, below, events);
  }
}

/**
 * Heart-rate variability from a recorded heartbeat signal: the rows whose
 * signal is exactly 1.0 mark beats, the differences of successive beat
 * times are the RR intervals, and two statistics are reported over them:
 * SDNN (the population standard deviation of the intervals) and RMSSD (the
 * root mean square of the successive interval differences), both in
 * milliseconds. The recording is an in-memory sequence of rows. The
 * square roots are not computed; the metrics are given squared, and
 * IsSquareRoot relates a reported value to its square.
 */
module HrvAnalysis {
  import opened Wrappers
  import Seqs
  import opened Stats

  /** One row of the recording: time in seconds and the signal level. */
  datatype Sample = Sample(time: real, signal: real)

  /** A row marks a beat exactly when its signal equals 1.0. */
  predicate IsBeat(s: Sample) {
    s.signal == 1.0
  }

  function TimeOf(s: Sample): real {
    s.time
  }

  /** The beat times of a recording, in row order. */
  function LoadHeartbeatData(rows: seq<Sample>): (beats: seq<real>)
    ensures |beats| <= |rows|
  {
    Seqs.Map(TimeOf, Seqs.Filter(IsBeat, rows))
  }

  /**
   * `idx` lists, in strictly increasing order, exactly the positions of the
   * beat rows of `rows`, and `beats` holds their times in that order.
   */
  ghost predicate SelectsBeats(rows: seq<Sample>, beats: seq<real>, idx: seq<nat>) {
    && |beats| == |idx|
    && (forall k :: 0 <= k < |idx| ==> idx[k] < |rows| && beats[k] == rows[idx[k]].time)
    && (forall k, l :: 0 <= k < l < |idx| ==> idx[k] < idx[l])
    && (forall i :: 0 <= i < |rows| ==> (rows[i].signal == 1.0 <==> i in idx))
  }

  /** The beat times are the times of exactly the rows whose signal is 1.0,
      in their original order. */
  lemma LoadHeartbeatDataSpec(rows: seq<Sample>)
    ensures exists idx :: SelectsBeats(rows, LoadHeartbeatData(rows), idx)
  {
    var idx := Seqs.FilterIndices(IsBeat, rows);
    Seqs.FilterIndicesSpec(IsBeat, rows);
    var kept := Seqs.Filter(IsBeat, rows);
    forall k | 0 <= k < |idx|
      ensures LoadHeartbeatData(rows)[k] == rows[idx[k]].time
    {
      assert LoadHeartbeatData(rows)[k] == TimeOf(kept[k]);
    }
    assert SelectsBeats(rows, LoadHeartbeatData(rows), idx);
  }

  /** The rows of a recording can be processed in pieces. */
  lemma LoadHeartbeatDataAppend(a: seq<Sample>, b: seq<Sample>)
    ensures LoadHeartbeatData(a + b) == LoadHeartbeatData(a) + LoadHeartbeatData(b)
  {
    Seqs.FilterAppend(IsBeat, a, b);
    Seqs.MapAppend(TimeOf, Seqs.Filter(IsBeat, a), Seqs.Filter(IsBeat, b));
  }

  /** The first row contributes its time exactly when it is a beat. */
  lemma LoadHeartbeatDataCons(rows: seq<Sample>)
    requires |rows| > 0
    ensures LoadHeartbeatData(rows) ==
            (if IsBeat(rows[0]) then [rows[0].time] else []) + LoadHeartbeatData(rows[1..])
  {
    var kept := Seqs.Filter(IsBeat, rows[1..]);
    if IsBeat(rows[0]) {
      assert Seqs.Filter(IsBeat, rows) == [rows[0]] + kept;
      Seqs.MapAppend(TimeOf, [rows[0]], kept);
      assert Seqs.Map(TimeOf, [rows[0]]) == [rows[0].time];
    } else {
      assert Seqs.Filter(IsBeat, rows) == kept;
    }
  }

  /** Signals near 1.0 or above it are not beats; only 1.0 itself is. */
  lemma LoadHeartbeatDataExample(t0: real, t1: real, t2: real, t3: real, t4: real)
    ensures LoadHeartbeatData([Sample(t0, 0.0), Sample(t1, 0.999), Sample(t2, 1.0),
                               Sample(t3, 2.0), Sample(t4, 1.0)]) == [t2, t4]
  {
    var rows := [Sample(t0, 0.0), Sample(t1, 0.999), Sample(t2, 1.0),
                 Sample(t3, 2.0), Sample(t4, 1.0)];
    LoadHeartbeatDataCons(rows[4..]);
    assert rows[4..][1..] == [];
    LoadHeartbeatDataCons(rows[3..]);
    assert rows[3..][1..] == rows[4..];
    LoadHeartbeatDataCons(rows[2..]);
    assert rows[2..][1..] == rows[3..];
    LoadHeartbeatDataCons(rows[1..]);
    assert rows[1..][1..] == rows[2..];
    LoadHeartbeatDataCons(rows);
  }

  // ---------------------------------------------------------------------
  // RR intervals

  /** The time between each beat and the next. */
  function RrIntervals(beats: seq<real>): (rr: seq<real>)
    ensures |rr| == if |beats| == 0 then 0 else |beats| - 1
    ensures forall i :: 0 <= i < |rr| ==> rr[i] == beats[i + 1] - beats[i]
  {
    Diff(beats)
  }

  /** Playing the recording backwards (t becomes -t, rows reversed) gives the
      same intervals in reverse order. */
  lemma RrIntervalsTimeReversal(beats: seq<real>)
    ensures RrIntervals(Reverse(Negate(beats))) == Reverse(RrIntervals(beats))
  {
    DiffReverse(Negate(beats));
    DiffNegate(beats);
    NegateNegate(Diff(beats));
  }

  // ---------------------------------------------------------------------
  // SDNN and RMSSD, squared

  /** `y` is the non-negative square root of `x`. */
  predicate IsSquareRoot(y: real, x: real) {
    y >= 0.0 && Square(y) == x
  }

  /** A square root is unique. */
  lemma SquareRootUnique(y: real, z: real, x: real)
    requires IsSquareRoot(y, x) && IsSquareRoot(z, x)
    ensures y == z
  {
    if y < z {
      SquareStrictlyIncreasing(y, z);
    } else if z < y {
      SquareStrictlyIncreasing(z, y);
    }
  }

  /** A square root is zero exactly when its square is. */
  lemma SquareRootZeroIff(y: real, x: real)
    requires IsSquareRoot(y, x)
    ensures y == 0.0 <==> x == 0.0
  {
    if y != 0.0 {
      SquarePositive(y);
    }
  }

  /** Scaling a root by 1000 (seconds to milliseconds) scales its square by 1000^2. */
  lemma SquareRootMilliseconds(y: real, x: real)
    requires IsSquareRoot(y, x)
    ensures IsSquareRoot(1000.0 * y, 1000000.0 * x)
  {
    assert Product(1000.0 * y, 1000.0 * y) == 1000000.0 * Product(y, y);
  }

  /**
   * SDNN squared, in ms^2: 1000^2 times the population variance (divisor
   * n) of the intervals. It is zero exactly when all intervals are equal.
   */
  function SdnnSquared(rr: seq<real>): (r: real)
    requires |rr| > 0
    ensures r >= 0.0
    ensures r == 0.0 <==> Constant(rr)
  {
    VarianceZeroIff(rr);
    1000000.0 * Variance(rr)
  }

  /**
   * RMSSD squared, in ms^2: 1000^2 times the mean of the squared
   * differences of successive intervals. It needs at least two intervals,
   * and it is zero exactly when all intervals are equal.
   */
  function RmssdSquared(rr: seq<real>): (r: real)
    requires |rr| >= 2
    ensures r >= 0.0
    ensures r == 0.0 <==> Constant(rr)
  {
    var d := Diff(rr);
    MeanSquareZeroIff(d);
    DiffZeroIff(rr);
    1000000.0 * MeanSquare(d)
  }

  /** SDNN in ms is 1000 times the standard deviation of the intervals. */
  lemma SdnnFromStandardDeviation(std: real, rr: seq<real>)
    requires |rr| > 0
    requires IsSquareRoot(std, Variance(rr))
    ensures IsSquareRoot(1000.0 * std, SdnnSquared(rr))
  {
    SquareRootMilliseconds(std, Variance(rr));
  }

  /** RMSSD in ms is 1000 times the root of the mean squared successive
      difference of the intervals. */
  lemma RmssdFromRootMeanSquare(rms: real, rr: seq<real>)
    requires |rr| >= 2
    requires IsSquareRoot(rms, MeanSquare(Diff(rr)))
    ensures IsSquareRoot(1000.0 * rms, RmssdSquared(rr))
  {
    SquareRootMilliseconds(rms, MeanSquare(Diff(rr)));
  }

  /** SDNN is zero exactly for a perfectly regular rhythm. */
  lemma SdnnZeroIff(sdnn: real, rr: seq<real>)
    requires |rr| > 0
    requires IsSquareRoot(sdnn, SdnnSquared(rr))
    ensures sdnn == 0.0 <==> Constant(rr)
  {
    SquareRootZeroIff(sdnn, SdnnSquared(rr));
  }

  /** RMSSD is zero exactly for a perfectly regular rhythm. */
  lemma RmssdZeroIff(rmssd: real, rr: seq<real>)
    requires |rr| >= 2
    requires IsSquareRoot(rmssd, RmssdSquared(rr))
    ensures rmssd == 0.0 <==> Constant(rr)
  {
    SquareRootZeroIff(rmssd, RmssdSquared(rr));
  }

  /** Neither metric depends on the direction the recording is read in. */
  lemma MetricsTimeReversal(beats: seq<real>)
    requires |beats| >= 2
    ensures SdnnSquared(RrIntervals(Reverse(Negate(beats)))) == SdnnSquared(RrIntervals(beats))
    ensures |beats| >= 3 ==>
      RmssdSquared(RrIntervals(Reverse(Negate(beats)))) == RmssdSquared(RrIntervals(beats))
  {
    var rr := RrIntervals(beats);
    RrIntervalsTimeReversal(beats);
    VarianceReverse(rr);
    if |beats| >= 3 {
      DiffReverse(rr);
      MeanSquareReverseNegate(Diff(rr));
    }
  }

  /** Neither metric depends on the order the beats are listed in: reversed
      beats give the intervals reversed and negated, which leaves the spread
      of the intervals and of their successive differences unchanged. */
  lemma MetricsBeatOrderReversal(beats: seq<real>)
    requires |beats| >= 2
    ensures SdnnSquared(RrIntervals(Reverse(beats))) == SdnnSquared(RrIntervals(beats))
    ensures |beats| >= 3 ==>
      RmssdSquared(RrIntervals(Reverse(beats))) == RmssdSquared(RrIntervals(beats))
  {
    var rr := RrIntervals(beats);
    DiffReverse(beats);
    VarianceReverse(Negate(rr));
    VarianceNegate(rr);
    if |beats| >= 3 {
      DiffReverse(Negate(rr));
      DiffNegate(rr);
      MeanSquareReverseNegate(Negate(Diff(rr)));
      MeanSquareNegate(Diff(rr));
    }
  }

  // ---------------------------------------------------------------------
  // The analysis

  /** What the analysis reports: either too few beats, or the beat count,
      the intervals and the squared metrics. With exactly two beats there is
      one interval and no successive difference, so there is no RMSSD. */
  datatype Outcome =
    | NotEnoughBeats
    | Analysed(beatCount: nat, rrIntervals: seq<real>, sdnnSquared: real, rmssdSquared: Option<real>)

  /** The analysis of a sequence of beat times. */
  function AnalyzeBeats(beats: seq<real>): (o: Outcome)
    ensures o.NotEnoughBeats? <==> |beats| < 2
    ensures o.Analysed? ==>
      && o.beatCount == |beats|
      && |o.rrIntervals| == |beats| - 1
      && o.rrIntervals == RrIntervals(beats)
      && o.sdnnSquared == SdnnSquared(o.rrIntervals)
      && (o.rmssdSquared.None? <==> |beats| == 2)
      && (o.rmssdSquared.Some? ==> o.rmssdSquared.value == RmssdSquared(o.rrIntervals))
  {
    if |beats| < 2 then NotEnoughBeats
    else
      var rr := RrIntervals(beats);
      Analysed(|beats|, rr, SdnnSquared(rr),
               if |rr| >= 2 then Some(RmssdSquared(rr)) else None)
  }

  /** The analysis of a recording. */
  function Analyze(rows: seq<Sample>): (o: Outcome)
    ensures o.NotEnoughBeats? <==> |Seqs.Filter(IsBeat, rows)| < 2
  {
    AnalyzeBeats(LoadHeartbeatData(rows))
  }

  /** Evenly spaced beats report zero for both metrics. */
  lemma AnalyzeRegularRhythm(beats: seq<real>)
    requires |beats| >= 2
    requires Constant(RrIntervals(beats))
    ensures AnalyzeBeats(beats).sdnnSquared == 0.0
    ensures AnalyzeBeats(beats).rmssdSquared.Some? ==> AnalyzeBeats(beats).rmssdSquared.value == 0.0
  {
  }

  /** Irregular beats report a positive SDNN, and a positive RMSSD when
      there is one. */
  lemma AnalyzeIrregularRhythm(beats: seq<real>)
    requires |beats| >= 2
    requires !Constant(RrIntervals(beats))
    ensures AnalyzeBeats(beats).sdnnSquared > 0.0
    ensures AnalyzeBeats(beats).rmssdSquared.Some? ==> AnalyzeBeats(beats).rmssdSquared.value > 0.0
  {
  }

  /** Four beats 0.8 s apart: no variability. */
  lemma AnalyzeRegularExample()
    ensures AnalyzeBeats([0.0, 0.8, 1.6, 2.4]) ==
            Analysed(4, [0.8, 0.8, 0.8], 0.0, Some(0.0))
  {
    var beats := [0.0, 0.8, 1.6, 2.4];
    var rr := RrIntervals(beats);
    assert rr == [0.8, 0.8, 0.8];
    assert Constant(rr);
  }

  /** Intervals 0.8, 0.7 and 0.9 s: variance 0.02/3 s^2 and mean squared
      successive difference 0.025 s^2. */
  lemma AnalyzeIrregularExample()
    ensures AnalyzeBeats([0.0, 0.8, 1.5, 2.4]) ==
            Analysed(4, [0.8, 0.7, 0.9], 20000.0 / 3.0, Some(25000.0))
  {
    var rr := [0.8, 0.7, 0.9];
    assert RrIntervals([0.0, 0.8, 1.5, 2.4]) == rr;
    assert Sum(rr) == 2.4;
    assert Mean(rr) == 0.8;
    var sq := SquaredDeviations(rr, 0.8);
    assert sq == [0.0, 0.01, 0.01];
    assert Sum(sq[2..]) == 0.01;
    assert Sum(sq[1..]) == 0.02;
    assert Sum(sq) == 0.02;
    assert Variance(rr) == 0.02 / 3.0;
    var d := Diff(rr);
    assert d == [-0.1, 0.2];
    var sd := SquaredDeviations(d, 0.0);
    assert sd == [0.01, 0.04];
    assert Sum(sd[1..]) == 0.04;
    assert Sum(sd) == 0.05;
    assert MeanSquare(d) == 0.025;
  }

  /** Two beats: an interval and an SDNN, but no RMSSD. */
  lemma AnalyzeTwoBeats(a: real, b: real)
    ensures AnalyzeBeats([a, b]) == Analysed(2, [b - a], 0.0, None)
  {
    var rr := RrIntervals([a, b]);
    assert rr == [b - a];
    assert Constant(rr);
  }
}

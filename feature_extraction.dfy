/**
 * Feature post-processing of `extract_features`: peak normalisation of the detected speech,
 * the low-variance filter and its skip rule, the finite-difference `calculate_delta` and the
 * `[base | delta | delta-delta]` assembly. MFCC extraction, `VarianceThreshold` and
 * `RobustScaler` are library calls and enter as functions.
 */
module FeatureExtraction {
  import opened Common
  import Vad

  // ---------------------------------------------------------------- delta features

  /** `(next - prev) / 2`, elementwise. */
  function HalfDifference(next: seq<real>, prev: seq<real>): (d: seq<real>)
    requires |next| == |prev|
    ensures |d| == |next|
  {
    seq(|next|, j requires 0 <= j < |next| => (next[j] - prev[j]) / 2.0)
  }

  /** The row `calculate_delta` writes at index `i`. */
  function DeltaRow(f: Matrix, i: nat): (row: seq<real>)
    requires i < |f|
    ensures |row| == Cols(f)
  {
    if i == 0 || i == |f| - 1 then f[i] else HalfDifference(f[i + 1], f[i - 1])
  }

  /** The matrix `calculate_delta(features)` returns. */
  function Delta(f: Matrix): (d: Matrix)
    ensures |d| == |f| && Cols(d) == Cols(f)
  {
    var d := seq(|f|, i requires 0 <= i < |f| => DeltaRow(f, i));
    assert forall i :: 0 <= i < |d| ==> |d[i]| == Cols(f);
    d
  }

  /**
   * `calculate_delta`: preallocate a zero matrix of the input's shape and fill it row by
   * row, copying the first and last rows and taking the half central difference elsewhere.
   */
  method CalculateDelta(features: Matrix) returns (deltas: Matrix)
    ensures |deltas| == |features| && Cols(deltas) == Cols(features)
    ensures forall i :: 0 <= i < |features| ==> |deltas[i]| == Cols(features)
    ensures forall i :: 0 <= i < |features| && (i == 0 || i == |features| - 1) ==> deltas[i] == features[i]
    ensures forall i :: 0 < i < |features| - 1 ==> deltas[i] == HalfDifference(features[i + 1], features[i - 1])
    ensures deltas == Delta(features)
  {
    var rows, cols := |features|, Cols(features);
    var d: seq<seq<real>> := seq(rows, _ => seq(cols, _ => 0.0));
    for i := 0 to rows
      invariant |d| == rows
      invariant forall k :: 0 <= k < rows ==> |d[k]| == cols
      invariant forall k :: 0 <= k < i ==> d[k] == DeltaRow(features, k)
    {
      if i == 0 {
        d := d[i := features[i]];
      } else if i == rows - 1 {
        d := d[i := features[i]];
      } else {
        d := d[i := HalfDifference(features[i + 1], features[i - 1])];
      }
    }
    deltas := d;
  }

  /** A matrix of one or two rows has only boundary rows, so its delta is itself. */
  lemma ShortDeltaIsIdentity(f: Matrix)
    requires |f| <= 2
    ensures Delta(f) == f
  {
  }

  /** Features that do not change from row to row have zero deltas in every interior row. */
  lemma ConstantFeaturesHaveZeroDelta(f: Matrix)
    requires forall i :: 0 <= i < |f| ==> f[i] == f[0]
    ensures forall i, j :: 0 < i < |f| - 1 && 0 <= j < Cols(f) ==> Delta(f)[i][j] == 0.0
  {
  }

  /** On a feature that grows by `step` per row, every interior delta is exactly `step`. */
  lemma RampHasConstantDelta(f: Matrix, j: nat, start: real, step: real)
    requires j < Cols(f)
    requires forall i :: 0 <= i < |f| ==> f[i][j] == start + (i as real) * step
    ensures forall i :: 0 < i < |f| - 1 ==> Delta(f)[i][j] == step
  {
    forall i | 0 < i < |f| - 1 ensures Delta(f)[i][j] == step {
      assert f[i + 1][j] - f[i - 1][j] == ((i + 1) as real) * step - ((i - 1) as real) * step;
      assert ((i + 1) as real) * step - ((i - 1) as real) * step == 2.0 * step;
    }
  }

  /** `np.hstack((a, b, c))` for three matrices of the same row count. */
  function HStack3(a: Matrix, b: Matrix, c: Matrix): (r: Matrix)
    requires |a| == |b| == |c|
    ensures |r| == |a|
    ensures forall i :: 0 <= i < |r| ==> |r[i]| == Cols(a) + Cols(b) + Cols(c)
  {
    var r := seq(|a|, i requires 0 <= i < |a| => a[i] + b[i] + c[i]);
    assert forall i :: 0 <= i < |r| ==> |r[i]| == Cols(a) + Cols(b) + Cols(c);
    r
  }

  /** `np.hstack((mfcc_feat, delta_feat, delta2_feat))` with the deltas of the scaled features. */
  function CombineWithDeltas(base: Matrix): (r: Matrix)
    ensures |r| == |base|
    ensures forall i :: 0 <= i < |r| ==> |r[i]| == 3 * Cols(base)
  {
    HStack3(base, Delta(base), Delta(Delta(base)))
  }

  /**
   * The combined features keep the row count, triple the width, and each row reads the base
   * row, then its delta, then the delta of the delta.
   */
  lemma CombinedLayout(base: Matrix)
    ensures var r := CombineWithDeltas(base);
      var c := Cols(base);
      |r| == |base|
      && (|base| > 0 ==> Cols(r) == 3 * c)
      && forall i :: 0 <= i < |r| ==>
        |r[i]| == 3 * c
        && r[i][..c] == base[i]
        && r[i][c..2 * c] == Delta(base)[i]
        && r[i][2 * c..] == Delta(Delta(base))[i]
  {
    var r := CombineWithDeltas(base);
    var c := Cols(base);
    forall i | 0 <= i < |r|
      ensures r[i][..c] == base[i] && r[i][c..2 * c] == Delta(base)[i] && r[i][2 * c..] == Delta(Delta(base))[i]
    {
      assert r[i] == base[i] + Delta(base)[i] + Delta(Delta(base))[i];
    }
  }

  /** The first and last combined rows are their base row written three times over. */
  lemma BoundaryRowsRepeatBase(base: Matrix, i: nat)
    requires i < |base| && (i == 0 || i == |base| - 1)
    ensures CombineWithDeltas(base)[i] == base[i] + base[i] + base[i]
  {
  }

  // ---------------------------------------------------------------- peak normalisation

  function AbsAll(s: seq<real>): (a: seq<real>)
    ensures |a| == |s| && forall i :: 0 <= i < |s| ==> a[i] == Abs(s[i])
  {
    seq(|s|, i requires 0 <= i < |s| => Abs(s[i]))
  }

  /** `np.max(np.abs(x))`. */
  function PeakMagnitude(s: seq<real>): (peak: real)
    requires |s| > 0
    ensures forall i :: 0 <= i < |s| ==> Abs(s[i]) <= peak
    ensures exists i :: 0 <= i < |s| && Abs(s[i]) == peak
  {
    MaxOf(AbsAll(s))
  }

  /**
   * `x / np.max(np.abs(x))`. With an all-zero signal numpy would divide by zero; the detector
   * never hands such a signal over (`Vad.SpeechHasNonZeroSample`).
   */
  function PeakNormalise(s: seq<real>): (y: seq<real>)
    requires |s| > 0 && PeakMagnitude(s) > 0.0
    ensures |y| == |s|
  {
    var peak := PeakMagnitude(s);
    seq(|s|, i requires 0 <= i < |s| => s[i] / peak)
  }

  /** A signal with a non-zero sample has a positive peak. */
  lemma PositivePeak(s: seq<real>, j: nat)
    requires j < |s| && s[j] != 0.0
    ensures PeakMagnitude(s) > 0.0
  {
    assert AbsAll(s)[j] > 0.0;
  }

  /**
   * After peak normalisation every sample lies in [-1, 1], and the loudest samples have
   * magnitude exactly 1.
   */
  lemma PeakNormalisedRange(s: seq<real>)
    requires |s| > 0 && PeakMagnitude(s) > 0.0
    ensures forall i :: 0 <= i < |s| ==> -1.0 <= PeakNormalise(s)[i] <= 1.0
    ensures forall i :: 0 <= i < |s| && Abs(s[i]) == PeakMagnitude(s) ==> Abs(PeakNormalise(s)[i]) == 1.0
    ensures exists i :: 0 <= i < |s| && Abs(PeakNormalise(s)[i]) == 1.0
  {
    forall i | 0 <= i < |s|
      ensures -1.0 <= PeakNormalise(s)[i] <= 1.0
      ensures Abs(s[i]) == PeakMagnitude(s) ==> Abs(PeakNormalise(s)[i]) == 1.0
    {
      assert AbsAll(s)[i] <= PeakMagnitude(s);
      UnitQuotient(s[i], PeakMagnitude(s), PeakNormalise(s)[i]);
    }
    var j :| 0 <= j < |s| && AbsAll(s)[j] == PeakMagnitude(s);
    assert Abs(s[j]) == PeakMagnitude(s);
  }

  /** A sample divided by a bound on its magnitude lies in [-1, 1], at an end when it attains the bound. */
  lemma UnitQuotient(x: real, m: real, q: real)
    requires m > 0.0 && Abs(x) <= m && q == x / m
    ensures -1.0 <= q <= 1.0
    ensures Abs(x) == m ==> Abs(q) == 1.0
  {
    assert q * m == x;
    if q > 1.0 {
      MulStrict(1.0, q, m);
    } else if q < -1.0 {
      MulStrict(q, -1.0, m);
    } else if x == m && q < 1.0 {
      MulStrict(q, 1.0, m);
    } else if x == -m && q > -1.0 {
      MulStrict(-1.0, q, m);
    }
  }

  /** Detected speech always has a positive peak, so its normalisation never divides by zero. */
  lemma SpeechPeakPositive(audio: seq<real>, frameSize: nat, minSpeechEnergy: real)
    requires Vad.DetectSpeech(audio, frameSize, minSpeechEnergy).Ok?
    ensures var speech := Vad.DetectSpeech(audio, frameSize, minSpeechEnergy).value;
      |speech| > 0 && PeakMagnitude(speech) > 0.0
  {
    var speech := Vad.DetectSpeech(audio, frameSize, minSpeechEnergy).value;
    Vad.SpeechHasNonZeroSample(audio, frameSize, minSpeechEnergy);
    var j :| 0 <= j < |speech| && speech[j] != 0.0;
    PositivePeak(speech, j);
  }

  // ---------------------------------------------------------------- low-variance filter

  /** Variances at or above this keep the `VarianceThreshold` step. */
  const SkipFilterBelow: real := 0.0001
  /** The threshold `VarianceThreshold` is built with: a smaller number than the skip rule's. */
  const SelectorThreshold: real := 0.00001

  /** `np.var(m, axis=0)`, the population variance of each column. */
  function ColumnVariances(m: Matrix): (v: seq<real>)
    requires |m| > 0
    ensures |v| == Cols(m)
  {
    seq(Cols(m), j requires 0 <= j < Cols(m) => Variance(Column(m, j)))
  }

  /**
   * `np.all(feature_variances < 1e-4)`. A matrix without rows has NaN variances, every
   * comparison with which is False, so its filter is never skipped.
   */
  predicate SkipsVarianceFilter(m: Matrix) {
    |m| > 0 && forall j :: 0 <= j < Cols(m) ==> ColumnVariances(m)[j] < SkipFilterBelow
  }

  /** A column selector that keeps every row and never adds a column. */
  ghost predicate KeepsRowsDropsColumns(selectByVariance: (Matrix, real) -> Option<Matrix>) {
    forall m: Matrix, t: real :: selectByVariance(m, t).Some? ==>
      |selectByVariance(m, t).value| == |m| && Cols(selectByVariance(m, t).value) <= Cols(m)
  }

  /** Library calls of the pipeline; `None` stands for a raised exception. */
  datatype Stages = Stages(
    mfcc: (seq<real>, nat) -> Option<Matrix>,
    selectByVariance: (Matrix, real) -> Option<Matrix>,
    robustScale: Matrix -> Option<Matrix>)

  /**
   * The shape promises of the library calls: `VarianceThreshold` only drops columns and
   * `RobustScaler` keeps the shape.
   */
  ghost predicate ShapePreserving(stages: Stages) {
    KeepsRowsDropsColumns(stages.selectByVariance)
    && (forall m: Matrix :: stages.robustScale(m).Some? ==>
      |stages.robustScale(m).value| == |m| && Cols(stages.robustScale(m).value) == Cols(m))
  }

  /** The `if np.all(...) ... else selector.fit_transform(...)` step. */
  function FilterLowVariance(selectByVariance: (Matrix, real) -> Option<Matrix>, m: Matrix): (r: Option<Matrix>)
    ensures SkipsVarianceFilter(m) ==> r == Some(m)
    ensures !SkipsVarianceFilter(m) ==> r == selectByVariance(m, SelectorThreshold)
    ensures r.Some? && KeepsRowsDropsColumns(selectByVariance) ==> |r.value| == |m| && Cols(r.value) <= Cols(m)
  {
    if SkipsVarianceFilter(m) then Some(m) else selectByVariance(m, SelectorThreshold)
  }

  /** Features identical in every row have zero variance, so the filter is skipped. */
  lemma ConstantFeaturesSkipFilter(m: Matrix)
    requires |m| > 0 && forall i :: 0 <= i < |m| ==> m[i] == m[0]
    ensures SkipsVarianceFilter(m)
  {
    forall j | 0 <= j < Cols(m) ensures ColumnVariances(m)[j] < SkipFilterBelow {
      ConstantVarianceZero(Column(m, j));
    }
  }

  /** One column whose variance reaches 1e-4 sends the features through the selector. */
  lemma VariedColumnForcesSelector(selectByVariance: (Matrix, real) -> Option<Matrix>, m: Matrix, j: nat)
    requires |m| > 0 && j < Cols(m) && Variance(Column(m, j)) >= SkipFilterBelow
    ensures FilterLowVariance(selectByVariance, m) == selectByVariance(m, SelectorThreshold)
  {
    assert ColumnVariances(m)[j] >= SkipFilterBelow;
  }

  // ---------------------------------------------------------------- the pipeline

  /** Detect speech with the default settings and peak-normalise it; `None` if nothing is detected. */
  function NormalisedSpeech(audio: seq<real>, rate: nat): (r: Option<seq<real>>)
    ensures Vad.DetectSpeech(audio, Vad.FrameSizeFor(rate), Vad.DefaultMinSpeechEnergy).Err? ==> r.None?
  {
    var frameSize := Vad.FrameSizeFor(rate);
    match Vad.DetectSpeech(audio, frameSize, Vad.DefaultMinSpeechEnergy)
    case Err(_) => None
    case Ok(speech) =>
      if |speech| == 0 then None
      else
        SpeechPeakPositive(audio, frameSize, Vad.DefaultMinSpeechEnergy);
        Some(PeakNormalise(speech))
  }

  /** `mfcc.mfcc(speech_frames, rate, ...)` on the normalised speech. */
  function Coefficients(stages: Stages, audio: seq<real>, rate: nat): Option<Matrix> {
    match NormalisedSpeech(audio, rate)
    case None => None
    case Some(speech) => stages.mfcc(speech, rate)
  }

  /**
   * The MFCCs after the variance filter (or its skip) and `RobustScaler`; there are none
   * unless speech was detected and the MFCC stage succeeded on it.
   */
  function ScaledFeatures(stages: Stages, audio: seq<real>, rate: nat): (r: Option<Matrix>)
    ensures r.Some? ==> NormalisedSpeech(audio, rate).Some? && stages.mfcc(NormalisedSpeech(audio, rate).value, rate).Some?
    ensures Vad.DetectSpeech(audio, Vad.FrameSizeFor(rate), Vad.DefaultMinSpeechEnergy).Err? ==> r.None?
  {
    match Coefficients(stages, audio, rate)
    case None => None
    case Some(coefficients) =>
      match FilterLowVariance(stages.selectByVariance, coefficients)
      case None => None
      case Some(filtered) => stages.robustScale(filtered)
  }

  /**
   * `extract_features(audio, rate)`: detect speech, peak-normalise it, take MFCCs, filter
   * low-variance columns unless all are low, scale, and append the deltas. Every raised
   * exception, and an empty detection, yields `None`.
   */
  function ExtractFeatures(stages: Stages, audio: seq<real>, rate: nat): (r: Option<Matrix>)
    ensures Vad.DetectSpeech(audio, Vad.FrameSizeFor(rate), Vad.DefaultMinSpeechEnergy).Err? ==> r.None?
    ensures r.Some? <==> ScaledFeatures(stages, audio, rate).Some?
  {
    match ScaledFeatures(stages, audio, rate)
    case None => None
    case Some(scaled) => Some(CombineWithDeltas(scaled))
  }

  /** Whenever speech is detected it reaches MFCC extraction: the empty-speech branch never runs. */
  lemma DetectedSpeechIsNormalised(audio: seq<real>, rate: nat)
    requires Vad.DetectSpeech(audio, Vad.FrameSizeFor(rate), Vad.DefaultMinSpeechEnergy).Ok?
    ensures NormalisedSpeech(audio, rate).Some?
  {
    SpeechPeakPositive(audio, Vad.FrameSizeFor(rate), Vad.DefaultMinSpeechEnergy);
  }

  /** Peak normalisation bounds the samples handed to MFCC extraction. */
  lemma MfccInputWithinUnitRange(audio: seq<real>, rate: nat)
    requires NormalisedSpeech(audio, rate).Some?
    ensures var y := NormalisedSpeech(audio, rate).value;
      |y| > 0
      && (forall i :: 0 <= i < |y| ==> -1.0 <= y[i] <= 1.0)
      && exists i :: 0 <= i < |y| && Abs(y[i]) == 1.0
  {
    var frameSize := Vad.FrameSizeFor(rate);
    var speech := Vad.DetectSpeech(audio, frameSize, Vad.DefaultMinSpeechEnergy).value;
    SpeechPeakPositive(audio, frameSize, Vad.DefaultMinSpeechEnergy);
    PeakNormalisedRange(speech);
  }

  /** A silent recording never yields features. */
  lemma SilenceYieldsNoFeatures(stages: Stages, audio: seq<real>, rate: nat)
    requires forall i :: 0 <= i < |audio| ==> audio[i] == 0.0
    ensures ExtractFeatures(stages, audio, rate).None?
  {
    Vad.SilenceYieldsNoSpeech(audio, Vad.FrameSizeFor(rate), Vad.DefaultMinSpeechEnergy);
  }

  /**
   * With shape-preserving library calls, the features have one row per MFCC frame and three
   * columns (value, delta, delta-delta) for each column the filter keeps.
   */
  lemma FeaturesFollowMfccFrames(stages: Stages, audio: seq<real>, rate: nat)
    requires ShapePreserving(stages)
    requires ExtractFeatures(stages, audio, rate).Some?
    ensures Coefficients(stages, audio, rate).Some?
    ensures var features := ExtractFeatures(stages, audio, rate).value;
      var coefficients := Coefficients(stages, audio, rate).value;
      var scaled := ScaledFeatures(stages, audio, rate).value;
      |features| == |scaled| == |coefficients|
      && Cols(scaled) <= Cols(coefficients)
      && features == CombineWithDeltas(scaled)
      && forall i :: 0 <= i < |features| ==> |features[i]| == 3 * Cols(scaled)
  {
    CombinedLayout(ScaledFeatures(stages, audio, rate).value);
  }
}

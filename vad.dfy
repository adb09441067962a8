/**
 * Energy-based voice activity detection (`detect_speech`): cut the signal into whole
 * frames, measure each frame's mean-square energy, normalise by the loudest frame and keep,
 * in order, the frames whose normalised energy exceeds a ratio.
 */
module Vad {
  import opened Common

  /** Default `frame_duration` (seconds) and `min_speech_energy`. */
  const DefaultFrameSeconds: real := 0.02
  const DefaultMinSpeechEnergy: real := 0.01

  /** Messages of the exceptions `detect_speech` lets escape. */
  const ZeroFrameSizeMessage: string := "integer division or modulo by zero"
  const NoFramesMessage: string := "number sections must be larger than 0."
  const NothingToConcatenateMessage: string := "need at least one array to concatenate"

  /** `frame_size = int(frame_duration * sampling_rate)` with the default frame duration. */
  function FrameSizeFor(rate: nat): (frameSize: nat)
    ensures frameSize as real <= DefaultFrameSeconds * (rate as real) < frameSize as real + 1.0
  {
    var exact := DefaultFrameSeconds * (rate as real);
    assert exact >= 0.0;
    exact.Floor
  }

  /** `n_frames = len(audio) // frame_size`. */
  function NumFrames(audio: seq<real>, frameSize: nat): (n: nat)
    requires frameSize > 0
    ensures n * frameSize <= |audio| < n * frameSize + frameSize
  {
    DivBounds(|audio|, frameSize);
    |audio| / frameSize
  }

  /**
   * `np.array_split(audio[:n_frames * frame_size], n_frames)`: consecutive frames of
   * `frame_size` samples taken from the front; a trailing partial frame is not a frame.
   */
  function Frames(audio: seq<real>, frameSize: nat): (frames: seq<seq<real>>)
    requires frameSize > 0
    ensures |frames| == NumFrames(audio, frameSize)
    ensures forall i :: 0 <= i < |frames| ==> |frames[i]| == frameSize
    decreases |audio|
  {
    if |audio| < frameSize then
      DivUnique(|audio|, frameSize, 0);
      []
    else
      DivShift(|audio|, frameSize);
      [audio[..frameSize]] + Frames(audio[frameSize..], frameSize)
  }

  /** `np.sum(frame**2) / len(frame)`, which is never negative. */
  function MeanSquare(frame: seq<real>): (energy: real)
    requires |frame| > 0
    ensures energy >= 0.0
  {
    SumSquaresNonNegative(frame);
    SumSquares(frame) / (|frame| as real)
  }

  function Energies(frames: seq<seq<real>>): (e: seq<real>)
    requires forall i :: 0 <= i < |frames| ==> |frames[i]| > 0
    ensures |e| == |frames|
  {
    seq(|frames|, i requires 0 <= i < |frames| => MeanSquare(frames[i]))
  }

  /**
   * `energies / np.max(energies) > min_speech_energy`. When the loudest frame is silent
   * numpy divides zero by zero, every quotient is NaN and every comparison is False.
   */
  function SpeechMask(energies: seq<real>, minSpeechEnergy: real): (mask: seq<bool>)
    requires |energies| > 0
    ensures |mask| == |energies|
  {
    var top := MaxOf(energies);
    seq(|energies|, i requires 0 <= i < |energies| => top != 0.0 && energies[i] / top > minSpeechEnergy)
  }

  /** The mask `detect_speech` computes over the whole frames of `audio`. */
  function FrameMask(audio: seq<real>, frameSize: nat, minSpeechEnergy: real): (mask: seq<bool>)
    requires frameSize > 0 && NumFrames(audio, frameSize) > 0
    ensures |mask| == NumFrames(audio, frameSize)
  {
    SpeechMask(Energies(Frames(audio, frameSize)), minSpeechEnergy)
  }

  /**
   * `detect_speech(audio, rate, frame_duration, min_speech_energy)` with `frame_size` given
   * directly. It raises for a zero frame size and for audio shorter than one frame, and
   * otherwise succeeds exactly when some frame passes the energy test.
   */
  function DetectSpeech(audio: seq<real>, frameSize: nat, minSpeechEnergy: real): (r: Result<seq<real>>)
    ensures frameSize == 0 ==> r == Err(ZeroFrameSizeMessage)
    ensures frameSize > 0 && NumFrames(audio, frameSize) == 0 ==> r == Err(NoFramesMessage)
    ensures frameSize > 0 && NumFrames(audio, frameSize) > 0 ==>
      (r.Ok? <==> exists i :: 0 <= i < NumFrames(audio, frameSize) && FrameMask(audio, frameSize, minSpeechEnergy)[i])
  {
    if frameSize == 0 then Err(ZeroFrameSizeMessage)
    else if NumFrames(audio, frameSize) == 0 then Err(NoFramesMessage)
    else
      var frames := Frames(audio, frameSize);
      var mask := FrameMask(audio, frameSize, minSpeechEnergy);
      SelectAtKeptIndices(frames, mask);
      KeptIndicesExact(mask);
      var kept := Select(frames, mask);
      if |kept| == 0 then Err(NothingToConcatenateMessage)
      else
        assert mask[KeptIndices(mask)[0]] by {
          assert KeptIndices(mask)[0] in KeptIndices(mask);
        }
        Ok(Flatten(kept))
  }

  // ---------------------------------------------------------------- properties

  /**
   * There are `len(audio) // frame_size` frames and they tile exactly
   * `audio[:n_frames * frame_size]`; the fewer than `frame_size` samples after it are dropped.
   */
  lemma WholeFramesOnly(audio: seq<real>, frameSize: nat)
    requires frameSize > 0
    ensures var n := NumFrames(audio, frameSize);
      n * frameSize <= |audio| < n * frameSize + frameSize
      && Flatten(Frames(audio, frameSize)) == audio[..n * frameSize]
  {
    var frames := Frames(audio, frameSize);
    FramesArePrefix(audio, frameSize);
    FlattenUniformLength(frames, frameSize);
    MulCongruence(|frames|, NumFrames(audio, frameSize), frameSize);
  }

  /** The frames, put back together, are a prefix of the signal. */
  lemma {:induction false} FramesArePrefix(audio: seq<real>, frameSize: nat)
    requires frameSize > 0
    ensures |Flatten(Frames(audio, frameSize))| <= |audio|
    ensures Flatten(Frames(audio, frameSize)) == audio[..|Flatten(Frames(audio, frameSize))|]
    decreases |audio|
  {
    if |audio| >= frameSize {
      var first, rest := audio[..frameSize], audio[frameSize..];
      FramesArePrefix(rest, frameSize);
      var tail := Flatten(Frames(rest, frameSize));
      assert Frames(audio, frameSize) == [first] + Frames(rest, frameSize);
      FlattenAppend([first], Frames(rest, frameSize));
      assert Flatten([first]) == first by {
        assert [first][..0] == [];
      }
      assert Flatten(Frames(audio, frameSize)) == first + tail;
      assert first + rest[..|tail|] == audio[..frameSize + |tail|];
    }
  }

  /**
   * The indices of the frames `detect_speech` keeps: with `loudest` the largest frame
   * energy, frame `i` is kept exactly when its energy exceeds `min_speech_energy` times
   * `loudest` (the division-free form), and never when every frame is silent.
   */
  lemma KeptIffAboveScaledMaximum(audio: seq<real>, frameSize: nat, minSpeechEnergy: real, i: nat, loudest: real)
    requires frameSize > 0 && i < NumFrames(audio, frameSize)
    requires loudest == MaxOf(Energies(Frames(audio, frameSize)))
    ensures loudest >= 0.0
    ensures loudest == 0.0 ==> !FrameMask(audio, frameSize, minSpeechEnergy)[i]
    ensures loudest > 0.0 ==>
      (FrameMask(audio, frameSize, minSpeechEnergy)[i] <==> Energies(Frames(audio, frameSize))[i] > Fraction(minSpeechEnergy, loudest))
  {
    EnergiesNonNegative(Frames(audio, frameSize));
    MaskAboveScaledMaximum(Energies(Frames(audio, frameSize)), minSpeechEnergy, i, loudest);
  }

  lemma EnergiesNonNegative(frames: seq<seq<real>>)
    requires forall i :: 0 <= i < |frames| ==> |frames[i]| > 0
    ensures forall i :: 0 <= i < |frames| ==> Energies(frames)[i] >= 0.0
  {
  }

  lemma MaskAboveScaledMaximum(e: seq<real>, ratio: real, i: nat, top: real)
    requires i < |e| && forall j :: 0 <= j < |e| ==> e[j] >= 0.0
    requires top == MaxOf(e)
    ensures top >= 0.0
    ensures top == 0.0 ==> !SpeechMask(e, ratio)[i]
    ensures top > 0.0 ==> (SpeechMask(e, ratio)[i] <==> e[i] > Fraction(ratio, top))
  {
    if top > 0.0 {
      QuotientAbove(e[i], top, ratio);
    }
  }

  /** The speech output is exactly the kept frames, concatenated in their original order. */
  lemma OutputIsKeptFramesInOrder(audio: seq<real>, frameSize: nat, minSpeechEnergy: real)
    requires DetectSpeech(audio, frameSize, minSpeechEnergy).Ok?
    ensures var frames := Frames(audio, frameSize);
      var mask := FrameMask(audio, frameSize, minSpeechEnergy);
      var k := KeptIndices(mask);
      DetectSpeech(audio, frameSize, minSpeechEnergy).value == Flatten(seq(|k|, j requires 0 <= j < |k| => frames[k[j]]))
      && (forall j, l :: 0 <= j < l < |k| ==> k[j] < k[l])
      && (forall i :: 0 <= i < |frames| ==> (i in k <==> mask[i]))
  {
    var frames := Frames(audio, frameSize);
    var mask := FrameMask(audio, frameSize, minSpeechEnergy);
    var k := KeptIndices(mask);
    SelectAtKeptIndices(frames, mask);
    KeptIndicesExact(mask);
    assert Select(frames, mask) == seq(|k|, j requires 0 <= j < |k| => frames[k[j]]);
  }

  /** The output is a whole number of frames and no longer than the whole-frame prefix of the input. */
  lemma OutputLength(audio: seq<real>, frameSize: nat, minSpeechEnergy: real)
    requires DetectSpeech(audio, frameSize, minSpeechEnergy).Ok?
    ensures var out := DetectSpeech(audio, frameSize, minSpeechEnergy).value;
      frameSize > 0
      && |out| == |KeptIndices(FrameMask(audio, frameSize, minSpeechEnergy))| * frameSize
      && frameSize <= |out| <= NumFrames(audio, frameSize) * frameSize <= |audio|
  {
    var frames := Frames(audio, frameSize);
    var mask := FrameMask(audio, frameSize, minSpeechEnergy);
    var kept := Select(frames, mask);
    var n := NumFrames(audio, frameSize);
    SelectAtKeptIndices(frames, mask);
    KeptIndicesExact(mask);
    forall j | 0 <= j < |kept| ensures |kept[j]| == frameSize {
    }
    FlattenUniformLength(kept, frameSize);
    KeptAtMostAll(mask);
    MulLeft(1, |kept|, frameSize);
    MulLeft(|kept|, n, frameSize);
    WholeFramesOnly(audio, frameSize);
  }

  lemma {:induction false} KeptAtMostAll(mask: seq<bool>)
    ensures |KeptIndices(mask)| <= |mask|
  {
    if |mask| > 0 {
      KeptAtMostAll(mask[..|mask| - 1]);
    }
  }

  /** Raising `min_speech_energy` keeps a subset of the frames kept before. */
  lemma MonotoneInRatio(audio: seq<real>, frameSize: nat, low: real, high: real)
    requires frameSize > 0 && NumFrames(audio, frameSize) > 0 && low <= high
    ensures forall i :: i in KeptIndices(FrameMask(audio, frameSize, high)) ==> i in KeptIndices(FrameMask(audio, frameSize, low))
  {
    var mLow := FrameMask(audio, frameSize, low);
    var mHigh := FrameMask(audio, frameSize, high);
    KeptIndicesExact(mLow);
    KeptIndicesExact(mHigh);
    forall i | i in KeptIndices(mHigh) ensures i in KeptIndices(mLow) {
      var top := MaxOf(Energies(Frames(audio, frameSize)));
      KeptIffAboveScaledMaximum(audio, frameSize, low, i, top);
      KeptIffAboveScaledMaximum(audio, frameSize, high, i, top);
      if top > 0.0 {
        FractionMono(low, high, top);
      }
    }
  }

  /** An index of a loudest frame. */
  function LoudestFrame(e: seq<real>): (i: nat)
    requires |e| > 0
    ensures i < |e| && e[i] == MaxOf(e)
  {
    if |e| == 1 || e[|e| - 1] > MaxOf(e[..|e| - 1]) then |e| - 1 else LoudestFrame(e[..|e| - 1])
  }

  /**
   * With some frame of non-zero energy and a ratio below one, the loudest frame is kept, so
   * detection succeeds and yields at least one frame.
   */
  lemma LoudestFrameKept(audio: seq<real>, frameSize: nat, minSpeechEnergy: real)
    requires frameSize > 0 && NumFrames(audio, frameSize) > 0
    requires exists i :: 0 <= i < NumFrames(audio, frameSize) && Energies(Frames(audio, frameSize))[i] > 0.0
    requires minSpeechEnergy < 1.0
    ensures LoudestFrame(Energies(Frames(audio, frameSize))) in KeptIndices(FrameMask(audio, frameSize, minSpeechEnergy))
    ensures DetectSpeech(audio, frameSize, minSpeechEnergy).Ok?
    ensures |DetectSpeech(audio, frameSize, minSpeechEnergy).value| >= frameSize
  {
    var frames := Frames(audio, frameSize);
    var e := Energies(frames);
    var mask := FrameMask(audio, frameSize, minSpeechEnergy);
    var m := LoudestFrame(e);
    EnergiesNonNegative(frames);
    LoudestAboveRatio(e, minSpeechEnergy);
    KeptIndicesExact(mask);
    SelectAtKeptIndices(frames, mask);
    OutputLengthIfKept(audio, frameSize, minSpeechEnergy);
  }

  lemma LoudestAboveRatio(e: seq<real>, ratio: real)
    requires |e| > 0 && forall j :: 0 <= j < |e| ==> e[j] >= 0.0
    requires exists i :: 0 <= i < |e| && e[i] > 0.0
    requires ratio < 1.0
    ensures SpeechMask(e, ratio)[LoudestFrame(e)]
  {
    assert MaxOf(e) > 0.0;
    FractionBelowWhole(ratio, MaxOf(e));
    MaskAboveScaledMaximum(e, ratio, LoudestFrame(e), MaxOf(e));
  }

  lemma OutputLengthIfKept(audio: seq<real>, frameSize: nat, minSpeechEnergy: real)
    requires frameSize > 0 && NumFrames(audio, frameSize) > 0
    requires |Select(Frames(audio, frameSize), FrameMask(audio, frameSize, minSpeechEnergy))| > 0
    ensures DetectSpeech(audio, frameSize, minSpeechEnergy).Ok?
    ensures |DetectSpeech(audio, frameSize, minSpeechEnergy).value| >= frameSize
  {
    OutputLength(audio, frameSize, minSpeechEnergy);
  }

  /**
   * Whenever detection succeeds the loudest frame is among the kept ones, so the output holds
   * a non-zero sample. Hence the "empty speech" branches of its callers never run, and peak
   * normalisation of the output never divides by zero.
   */
  lemma SpeechHasNonZeroSample(audio: seq<real>, frameSize: nat, minSpeechEnergy: real)
    requires DetectSpeech(audio, frameSize, minSpeechEnergy).Ok?
    ensures var out := DetectSpeech(audio, frameSize, minSpeechEnergy).value;
      |out| > 0 && exists j :: 0 <= j < |out| && out[j] != 0.0
  {
    var frames := Frames(audio, frameSize);
    var e := Energies(frames);
    var mask := FrameMask(audio, frameSize, minSpeechEnergy);
    var kept := Select(frames, mask);
    var k := KeptIndices(mask);
    SelectAtKeptIndices(frames, mask);
    KeptIndicesExact(mask);
    EnergiesNonNegative(frames);
    LoudestKeptWhenAnyKept(e, minSpeechEnergy, k[0]);
    var m := LoudestFrame(e);
    var p :| 0 <= p < |k| && k[p] == m;
    assert kept[p] == frames[m];
    AudibleFrame(frames[m]);
    var s :| 0 <= s < |frames[m]| && frames[m][s] != 0.0;
    InFlatten(kept, p, s);
    OutputLength(audio, frameSize, minSpeechEnergy);
  }

  /** If any frame passes the threshold, so does a loudest one, and its energy is positive. */
  lemma LoudestKeptWhenAnyKept(e: seq<real>, ratio: real, i: nat)
    requires i < |e| && forall j :: 0 <= j < |e| ==> e[j] >= 0.0
    requires SpeechMask(e, ratio)[i]
    ensures MaxOf(e) > 0.0 && SpeechMask(e, ratio)[LoudestFrame(e)]
  {
    var top := MaxOf(e);
    var m := LoudestFrame(e);
    MaskAboveScaledMaximum(e, ratio, i, top);
    MaskAboveScaledMaximum(e, ratio, m, top);
  }

  /** A frame of positive energy has a non-zero sample. */
  lemma AudibleFrame(frame: seq<real>)
    requires |frame| > 0 && MeanSquare(frame) > 0.0
    ensures exists s :: 0 <= s < |frame| && frame[s] != 0.0
  {
    if forall t :: 0 <= t < |frame| ==> frame[t] == 0.0 {
      SilentSumSquares(frame);
    }
  }

  /** A signal whose samples are all zero has no speech: detection fails rather than dividing by zero. */
  lemma SilenceYieldsNoSpeech(audio: seq<real>, frameSize: nat, minSpeechEnergy: real)
    requires forall i :: 0 <= i < |audio| ==> audio[i] == 0.0
    ensures DetectSpeech(audio, frameSize, minSpeechEnergy).Err?
  {
    if frameSize > 0 && NumFrames(audio, frameSize) > 0 {
      var frames := Frames(audio, frameSize);
      var mask := FrameMask(audio, frameSize, minSpeechEnergy);
      SilentFrames(audio, frameSize);
      forall i | 0 <= i < |frames| ensures Energies(frames)[i] == 0.0 {
        SilentSumSquares(frames[i]);
      }
      var e := Energies(frames);
      EnergiesNonNegative(frames);
      forall i | 0 <= i < |frames| ensures !mask[i] {
        MaskAboveScaledMaximum(e, minSpeechEnergy, i, MaxOf(e));
      }
      NothingKept(mask);
      SelectAtKeptIndices(frames, mask);
    }
  }

  lemma {:induction false} SilentFrames(audio: seq<real>, frameSize: nat)
    requires frameSize > 0
    requires forall i :: 0 <= i < |audio| ==> audio[i] == 0.0
    ensures forall i, s :: 0 <= i < |Frames(audio, frameSize)| && 0 <= s < frameSize ==> Frames(audio, frameSize)[i][s] == 0.0
    decreases |audio|
  {
    if |audio| >= frameSize {
      SilentFrames(audio[frameSize..], frameSize);
    }
  }
}

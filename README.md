# voiceauth in Dafny

A model of the statistical speaker-verification code of the voiceauth repository, with proofs
of what that code promises. It covers four parts:

- **Voice activity detection.** `detect_speech` cuts the signal into whole frames and takes each
  frame's mean-square energy. It normalises by the loudest frame and keeps, in order, the frames
  above a ratio.
- **Feature post-processing.** In `extract_features`: peak normalisation of the detected speech,
  the rule that skips the low-variance filter, the finite-difference `calculate_delta` (written as
  the row-filling loop it is), and the `[base | delta | delta-delta]` assembly.
- **Training support.** In `gmm.py`: the authentication threshold (numpy's linear-interpolation
  90th percentile of the per-row log-likelihoods, less 6.0), the path and record of the threshold
  file, and the loading of one directory of recordings. In `UBM.py`: the walk of a directory tree
  for `.wav` files, the per-file filtering and stacking, and the pooling of the training script's
  data directories.
- **Verification front end.** In `speaker_model.py`: the shape rules of `preprocess_audio`, the
  strict `similarity > threshold` decision, and enrollment as the mean embedding. In
  `voice_verifier.py`: the `VoiceVerifier` object, a class whose two dictionaries
  (`enrolledSpeakers`, `thresholds`) are updated by `EnrollSpeaker` and `VerifySpeaker`, with the
  model directory a `FileStore` map from path to content.

Each part is one module: `Common` (`common.dfy`), `Vad`, `FeatureExtraction`, `Percentile`,
`Gmm`, `Ubm`, `SpeakerModel` and `Verifier` (`voice_verifier.dfy`).

Library code enters as function-typed parameters that may fail (`Result`/`Option`):

- the MFCC extractor, `VarianceThreshold`, `RobustScaler` and the mixture's `score`;
- `process_file`, the SpeechBrain encoder and similarity;
- `os.listdir`, `os.walk` and `os.path.exists`, `load_audio`, and the square root inside `np.std`.

The verifier's files are a map; writes are map updates. Numbers are Dafny `real`. NaN appears
only where numpy produces it without an exception: the mean of an empty similarity list, and the
division by a silent loudest frame, whose comparisons are all False.

Three points about the code:

- The threshold scores one log-likelihood per feature row (`gmm.py:60-64`).
- The percentile (90) and the margin (6.0) are fixed constants (`gmm.py:67-69`).
- The comment at `gmm.py:66` says "10th percentile", but the code takes the 90th.

## Model

| member | source | states |
|---|---|---|
| Vad.FrameSizeFor | voiceauth/vad.py:17 | the frame size is `frame_duration * sampling_rate` truncated: at most that product and within one of it |
| Vad.NumFrames | voiceauth/vad.py:20 | the frame count is `len // frame_size`: its frames fit in the signal and one more would not |
| Vad.Frames | voiceauth/vad.py:21 | there are `n_frames` frames, each exactly `frame_size` samples long |
| Vad.Energies | voiceauth/vad.py:24 | one energy per frame |
| Vad.SpeechMask | voiceauth/vad.py:27-30 | one mask bit per frame energy |
| Vad.FrameMask | voiceauth/vad.py:24-30 | one mask bit per whole frame of the signal |
| Vad.DetectSpeech | voiceauth/vad.py:17-35 | a zero frame size and audio shorter than one frame each raise their own error; otherwise detection succeeds exactly when some frame's mask bit is set |
| Vad.WholeFramesOnly | voiceauth/vad.py:17-21 | the frames tile exactly `audio[:n_frames * frame_size]`; fewer than `frame_size` samples are left after it |
| Vad.FramesArePrefix | voiceauth/vad.py:21 | the frames, concatenated, are a prefix of the signal |
| Vad.MeanSquare | voiceauth/vad.py:24 | a frame's mean-square energy is never negative |
| Vad.EnergiesNonNegative | voiceauth/vad.py:24 | every frame energy is non-negative |
| Vad.KeptIffAboveScaledMaximum | voiceauth/vad.py:24-30 | with a positive loudest energy, frame `i` is kept iff its energy exceeds `min_speech_energy * max`; with a silent loudest frame nothing is kept |
| Vad.MaskAboveScaledMaximum | voiceauth/vad.py:27-30 | the division-free form of the normalised comparison, and no bit set when the maximum is zero |
| Vad.OutputIsKeptFramesInOrder | voiceauth/vad.py:24-33 | the output is the concatenation, in the original order, of exactly the frames whose mask bit is set |
| Vad.OutputLength | voiceauth/vad.py:20-33 | the output length is a positive multiple of `frame_size`, at most `n_frames * frame_size`, at most `len(audio)` |
| Vad.KeptAtMostAll | voiceauth/vad.py:33 | no more frames are kept than there are |
| Vad.MonotoneInRatio | voiceauth/vad.py:30-33 | raising `min_speech_energy` keeps a subset of the frames kept before |
| Vad.LoudestFrame | voiceauth/vad.py:27 | the index of a frame whose energy is the maximum |
| Vad.LoudestFrameKept | voiceauth/vad.py:27-33 | some frame with non-zero energy and a ratio below one: the loudest frame is kept, detection succeeds and yields at least one frame |
| Vad.LoudestAboveRatio | voiceauth/vad.py:27-30 | a positive maximum energy is above any ratio below one of itself |
| Vad.OutputLengthIfKept | voiceauth/vad.py:33 | a non-empty selection concatenates without error into at least one frame |
| Vad.SpeechHasNonZeroSample | voiceauth/vad.py:24-33 | successful detection always yields a sample that is not zero, so the "no speech" branches of its callers never run |
| Vad.LoudestKeptWhenAnyKept | voiceauth/vad.py:27-30 | if any frame passes, the maximum is positive and a loudest frame passes too |
| Vad.AudibleFrame | voiceauth/vad.py:24 | a frame of positive energy holds a non-zero sample |
| Vad.SilenceYieldsNoSpeech | voiceauth/vad.py:20-33 | an all-zero signal raises (no full frame, or nothing to concatenate) rather than returning speech |
| Vad.SilentFrames | voiceauth/vad.py:21 | the frames of a silent signal are silent |
| FeatureExtraction.HalfDifference | voiceauth/feature_extraction.py:27 | the half difference has the width of its operands |
| FeatureExtraction.DeltaRow | voiceauth/feature_extraction.py:22-27 | each delta row has the input's width |
| FeatureExtraction.Delta | voiceauth/feature_extraction.py:18-29 | the delta matrix has the input's rows and columns |
| FeatureExtraction.CalculateDelta | voiceauth/feature_extraction.py:12-29 | the loop yields a matrix of the input's shape whose first and last rows are copied and whose interior rows are `(f[i+1] - f[i-1]) / 2`, i.e. `Delta(features)` |
| FeatureExtraction.ShortDeltaIsIdentity | voiceauth/feature_extraction.py:21-25 | an input of one or two rows comes back unchanged |
| FeatureExtraction.ConstantFeaturesHaveZeroDelta | voiceauth/feature_extraction.py:26-27 | rows that never change have zero interior deltas |
| FeatureExtraction.RampHasConstantDelta | voiceauth/feature_extraction.py:26-27 | a column growing by `step` per row has interior deltas exactly `step` |
| FeatureExtraction.HStack3 | voiceauth/feature_extraction.py:89 | stacking side by side keeps the rows and adds the widths |
| FeatureExtraction.CombineWithDeltas | voiceauth/feature_extraction.py:85-89 | the combined features keep the row count and every row is three times the base width |
| FeatureExtraction.CombinedLayout | voiceauth/feature_extraction.py:85-89 | the combined features keep the row count and have width `3 * cols`; row `i` is `base[i] ++ delta[i] ++ delta(delta)[i]` |
| FeatureExtraction.BoundaryRowsRepeatBase | voiceauth/feature_extraction.py:85-89 | the first and last combined rows are the base row three times over |
| FeatureExtraction.AbsAll | voiceauth/feature_extraction.py:48 | the magnitudes keep the length |
| FeatureExtraction.PeakMagnitude | voiceauth/feature_extraction.py:48 | the peak bounds every sample's magnitude and is attained by some sample |
| FeatureExtraction.PeakNormalise | voiceauth/feature_extraction.py:48 | normalisation keeps the length |
| FeatureExtraction.PositivePeak | voiceauth/feature_extraction.py:48 | a non-zero sample makes the peak positive |
| FeatureExtraction.PeakNormalisedRange | voiceauth/feature_extraction.py:48 | after peak normalisation every sample is in [-1, 1]; a loudest sample, and so some sample, has magnitude 1 |
| FeatureExtraction.UnitQuotient | voiceauth/feature_extraction.py:48 | a sample over a bound on its magnitude lies in [-1, 1], at an end when it attains the bound |
| FeatureExtraction.SpeechPeakPositive | voiceauth/feature_extraction.py:41-48 | detected speech has a positive peak, so its normalisation never divides by zero |
| FeatureExtraction.ColumnVariances | voiceauth/feature_extraction.py:70 | one variance per column |
| FeatureExtraction.FilterLowVariance | voiceauth/feature_extraction.py:74-78 | with a selector that keeps every row and never adds a column (what `VarianceThreshold` promises), the filtered features keep every MFCC frame and have at most the original columns; they are the input itself when every column variance is below 1e-4 |
| FeatureExtraction.ConstantFeaturesSkipFilter | voiceauth/feature_extraction.py:74-75 | features identical in every row skip the filter |
| FeatureExtraction.VariedColumnForcesSelector | voiceauth/feature_extraction.py:74-78 | one column with variance at least 1e-4 sends all features through the selector |
| FeatureExtraction.NormalisedSpeech | voiceauth/feature_extraction.py:41-48 | failed detection yields `None` |
| FeatureExtraction.ScaledFeatures | voiceauth/feature_extraction.py:41-82 | scaled features exist only after speech was detected and normalised and the MFCC stage succeeded on it; failed detection yields `None` |
| FeatureExtraction.ExtractFeatures | voiceauth/feature_extraction.py:39-95 | failed detection yields `None`; a result exists exactly when the scaled MFCCs do (any library exception yields `None`) |
| FeatureExtraction.DetectedSpeechIsNormalised | voiceauth/feature_extraction.py:41-48 | detected speech always reaches MFCC extraction: the empty-speech branch never runs |
| FeatureExtraction.MfccInputWithinUnitRange | voiceauth/feature_extraction.py:48-51 | the signal handed to MFCC extraction lies in [-1, 1] |
| FeatureExtraction.SilenceYieldsNoFeatures | voiceauth/feature_extraction.py:41-45 | a silent recording yields `None` |
| FeatureExtraction.FeaturesFollowMfccFrames | voiceauth/feature_extraction.py:51-89 | with shape-preserving library calls, one feature row per MFCC frame and three columns per column the filter keeps |
| Percentile.SortedCons | voiceauth/gmm.py:67 | a value no larger than a sorted sequence's head extends it sorted |
| Percentile.Insert | voiceauth/gmm.py:67 | insertion adds one element |
| Percentile.InsertSorted | voiceauth/gmm.py:67 | inserting into a sorted sequence keeps it sorted |
| Percentile.InsertPermutes | voiceauth/gmm.py:67 | insertion adds exactly that value to the multiset |
| Percentile.Sort | voiceauth/gmm.py:67 | sorting keeps the length |
| Percentile.SortSorted | voiceauth/gmm.py:67 | the sort is ascending |
| Percentile.SortPermutes | voiceauth/gmm.py:67 | the sort is a permutation of its input |
| Percentile.InsertAt | voiceauth/gmm.py:67 | insertion places the value after every smaller one and before the first not smaller |
| Percentile.SortStep | voiceauth/gmm.py:67 | sorting one value more inserts it among the sorted others |
| Percentile.SortedUnique | voiceauth/gmm.py:67 | two sorted arrangements of the same values are equal |
| Percentile.HeadIsLeast | voiceauth/gmm.py:67 | the head of a sorted arrangement is at most any element |
| Percentile.TailMultiset | voiceauth/gmm.py:67 | dropping the head removes one copy of it |
| Percentile.SortPermutation | voiceauth/gmm.py:67 | the sorted scores do not depend on their order |
| Percentile.SortedWithinRange | voiceauth/gmm.py:67 | every order statistic lies between the minimum and maximum |
| Percentile.CountAppend | voiceauth/gmm.py:67 | counting values at most `v` is additive over concatenation |
| Percentile.CountInsert | voiceauth/gmm.py:67 | insertion adds one to the count exactly when the value is at most `v` |
| Percentile.CountSort | voiceauth/gmm.py:67 | sorting keeps the count |
| Percentile.CountDominated | voiceauth/gmm.py:67 | raising values never adds to the count below a bound |
| Percentile.CountAllAtMost | voiceauth/gmm.py:67 | when all values are at most `v` the count is the length |
| Percentile.CountNoneAtMost | voiceauth/gmm.py:67 | when all values exceed `v` the count is zero |
| Percentile.CountAtMostLength | voiceauth/gmm.py:67 | the count is at most the length |
| Percentile.SortedRankCount | voiceauth/gmm.py:67 | in sorted values, `t[k] <= v` iff more than `k` values are at most `v` |
| Percentile.RankCountAtMost | voiceauth/gmm.py:67 | the "if" half of the rank and count correspondence |
| Percentile.RankCountAbove | voiceauth/gmm.py:67 | the "only if" half of the rank and count correspondence |
| Percentile.SortMonotone | voiceauth/gmm.py:67 | raising any values weakly raises every order statistic |
| Percentile.InterpolateBetween | voiceauth/gmm.py:67 | interpolation between ordered values stays between them |
| Percentile.InterpolateMonotone | voiceauth/gmm.py:67 | raising either end never lowers the interpolation |
| Percentile.RaiseUpper | voiceauth/gmm.py:67 | raising the upper end never lowers the interpolation |
| Percentile.RaiseLower | voiceauth/gmm.py:67 | raising the lower end never lowers the interpolation |
| Percentile.LowerRank | voiceauth/gmm.py:67 | the floor of the virtual index `(n - 1) * q / 100` is a valid rank |
| Percentile.RankFraction | voiceauth/gmm.py:67 | the fractional part of the virtual index lies in [0, 1) |
| Percentile.PercentileOfOne | voiceauth/gmm.py:67 | the percentile of one value is that value |
| Percentile.SortedNeighbours | voiceauth/gmm.py:67 | neighbouring sorted values are in order |
| Percentile.UpperRank | voiceauth/gmm.py:67 | the upper interpolation neighbour is a valid rank |
| Percentile.SortedAtRank | voiceauth/gmm.py:67 | the two interpolation neighbours of the sorted values are in order |
| Percentile.Percentile | voiceauth/gmm.py:67 | `np.percentile` with the linear method lies between the two order statistics around rank `(n - 1) * q / 100`; PercentileWithinRange, PercentilePermutation and PercentileMonotone state its range, order independence and monotonicity |
| Percentile.BetweenRanks | voiceauth/gmm.py:67 | the percentile lies between its two neighbouring order statistics |
| Percentile.PercentileWithinRange | voiceauth/gmm.py:67 | the percentile lies between the minimum and maximum value |
| Percentile.PercentilePermutation | voiceauth/gmm.py:67 | the percentile does not depend on the order of the values |
| Percentile.PercentileMonotone | voiceauth/gmm.py:67 | raising any value never lowers the percentile |
| Gmm.ThresholdFromScores | voiceauth/gmm.py:67-69 | a threshold exists exactly when there is a score (numpy raises on an empty array) |
| Gmm.CalculateThreshold | voiceauth/gmm.py:56-71 | one score per feature row, in order, each row scored as a one-row matrix; the threshold is their 90th percentile less 6.0; empty features raise |
| Gmm.ThresholdOfOneScore | voiceauth/gmm.py:67-69 | a single score `s` gives `s - 6.0` |
| Gmm.ThresholdWithinRange | voiceauth/gmm.py:67-69 | the threshold lies in `[min - 6, max - 6]` |
| Gmm.ThresholdPermutation | voiceauth/gmm.py:67 | permuting the scores does not change the threshold |
| Gmm.ThresholdMonotone | voiceauth/gmm.py:67 | raising any score never lowers the threshold |
| Gmm.ThresholdFixture | voiceauth/gmm.py:67-69 | scores `[-10, -12, -9, -15, -8, -11, -13, -9, -10, -14]` give percentile -8.9 and threshold -14.9 |
| Gmm.FixtureSorted | voiceauth/gmm.py:67 | the fixture in ascending order |
| Gmm.OccursAt | voiceauth/gmm.py:130 | a pattern occurs exactly when it starts at some position |
| Gmm.Replace | voiceauth/gmm.py:130 | a replacement no shorter than the pattern never shortens the string; one of the same length keeps its length |
| Gmm.ReplaceLength | voiceauth/gmm.py:130 | replacing with a longer string lengthens it exactly when the pattern occurs |
| Gmm.ReplaceAbsent | voiceauth/gmm.py:130 | without the pattern the string is unchanged |
| Gmm.ThresholdPath | voiceauth/gmm.py:130 | the threshold path is never shorter than the model path |
| Gmm.ThresholdPathIsModelPath | voiceauth/gmm.py:126-133 | the threshold path equals the model path exactly when the model path holds no `.gmm`, so the record then overwrites the model |
| Gmm.ThresholdPathOfStem | voiceauth/gmm.py:130 | `stem.gmm`, with no other `.gmm`, gives `stem_threshold.json` |
| Gmm.PrefixIsNotPattern | voiceauth/gmm.py:130 | no `.gmm` starts at the head of `stem.gmm` when the non-empty stem holds none |
| Gmm.SaveGmmModel | voiceauth/gmm.py:122-138 | saving touches only the model path and the threshold path |
| Gmm.SaveWithoutThreshold | voiceauth/gmm.py:126-129 | with no threshold, only the model is written |
| Gmm.SaveWithThreshold | voiceauth/gmm.py:126-134 | with a threshold, the threshold path holds the one-key record `{'threshold': t}`; the model stays unless the paths coincide |
| Gmm.SaveFailsCleanly | voiceauth/gmm.py:124-138 | when the model cannot be written, nothing is |
| Gmm.WavPathsExact | voiceauth/gmm.py:38-43 | a path is handed to `process_file` iff it is the directory joined to a `.wav` name of the listing |
| Gmm.ResultsAppend | voiceauth/gmm.py:42-43 | one more listed name adds its own result at the end when it is a `.wav` name and nothing otherwise, so the results follow the listing order (`pool.imap` keeps order) |
| Gmm.LoadFeaturesFromDirectory | voiceauth/gmm.py:33-54 | with nothing kept, the empty array; otherwise the kept results stacked in order, row total the sum of their rows, failing exactly when widths differ |
| Gmm.IgnoresOtherNames | voiceauth/gmm.py:38 | a name not ending in `.wav` changes nothing |
| Gmm.AllFailuresGiveEmpty | voiceauth/gmm.py:46-54 | when every file fails, the result is the empty array, not an error |
| Gmm.SameWidthLoads | voiceauth/gmm.py:46-51 | results of one width always stack |
| Ubm.EntryWavPaths | voiceauth/UBM.py:39-41 | one walk step yields at most one path per file name, each ending in `.wav` |
| Ubm.WalkWavPaths | voiceauth/UBM.py:37-41 | every path collected from the walk ends in `.wav` |
| Ubm.CollectWavFiles | voiceauth/UBM.py:37-41 | the nested loops collect the walk's `.wav` paths, step after step |
| Ubm.EntryWavPathsExact | voiceauth/UBM.py:39-41 | a path of one step is collected iff it joins a listed `.wav` name to the step's root |
| Ubm.CollectsEveryWav | voiceauth/UBM.py:37-41 | every `.wav` file anywhere under the tree is collected, and nothing else |
| Ubm.NoWavCollectsNothing | voiceauth/UBM.py:37-45 | a tree with no `.wav` name collects nothing, so the load is the empty array |
| Ubm.UsableFeatures | voiceauth/UBM.py:50-53 | at most one kept matrix per file, each with elements |
| Ubm.DirectoryFeatures | voiceauth/UBM.py:32-58 | the only exception a directory load raises is numpy's width mismatch |
| Ubm.LoadFeaturesFromDirectory | voiceauth/UBM.py:32-58 | the loop's result is the directory's features: usable results stacked, or the empty array |
| Ubm.UsableFeaturesExact | voiceauth/UBM.py:50-53 | the kept matrices are exactly the results that are present with elements |
| Ubm.DropsEmptyResults | voiceauth/UBM.py:52-53 | a present but empty result is dropped, unlike in gmm.py |
| Ubm.LoadedOrMismatched | voiceauth/UBM.py:43-58 | nothing usable gives the empty array; otherwise the load fails exactly when widths differ |
| Ubm.LoadedRows | voiceauth/UBM.py:55-58 | a successful load holds every kept matrix's rows, block after block, and has elements |
| Ubm.Contributions | voiceauth/UBM.py:88-95 | at most one matrix per directory is kept, and the only exception is a width mismatch |
| Ubm.PoolFrom | voiceauth/UBM.py:97-102 | exit code 1 exactly when nothing was kept; a pooled matrix holds all the kept rows |
| Ubm.PoolCorpus | voiceauth/UBM.py:88-102 | the loop over the data directories ends in the outcome of pooling their contributions |
| Ubm.PropagatesCrash | voiceauth/UBM.py:90-95 | once a directory raises, later directories change nothing |
| Ubm.NothingToPool | voiceauth/UBM.py:90-99 | with no directory raising, the script exits with code 1 iff every directory is missing or yields an empty result |
| Ubm.PooledFromContributors | voiceauth/UBM.py:90-102 | every pooled block has elements and is the matrix of an existing directory that contributes |
| Ubm.ContributingAppend | voiceauth/UBM.py:90-94 | one more directory adds its matrix at the end exactly when it contributes |
| Ubm.PooledInListOrder | voiceauth/UBM.py:90-94 | when no directory raises, the pooled list is exactly the contributing directories' matrices, each once, in list order |
| SpeakerModel.ChannelMean | voiceauth/speaker_model.py:45 | each time step is the mean over the channels, and so lies between the smallest and the largest channel sample at that time |
| SpeakerModel.PreprocessAudio | voiceauth/speaker_model.py:31-51 | the result is a rank-3 array or the input unchanged |
| SpeakerModel.MonoSignalShape | voiceauth/speaker_model.py:42-43 | a 1-D signal of length T becomes `[1, 1, T]` with its samples |
| SpeakerModel.MultiChannelShape | voiceauth/speaker_model.py:44-45 | C > 1 channels become `[1, 1, T]`, each sample the channel average |
| SpeakerModel.SingleChannelShape | voiceauth/speaker_model.py:46-47 | a single channel becomes `[1, 1, T]` unchanged |
| SpeakerModel.IdenticalChannelsAverage | voiceauth/speaker_model.py:44-45 | identical channels average to that channel |
| SpeakerModel.OtherRanksUnchanged | voiceauth/speaker_model.py:42-48 | other ranks pass unchanged |
| SpeakerModel.GetEmbedding | voiceauth/speaker_model.py:53-62 | a mono signal reaches `encode_batch` as `[1, 1, T]` holding its samples, whether it comes as `[T]` or as a single channel `[1, T]` |
| SpeakerModel.VerifySpeaker | voiceauth/speaker_model.py:64-78 | the decision is `similarity > threshold` (never with NaN), the similarity returned unchanged; a failing similarity raises |
| SpeakerModel.StricterThresholdAcceptsLess | voiceauth/speaker_model.py:74 | raising the threshold never turns a rejection into an acceptance |
| SpeakerModel.EqualSimilarityRejected | voiceauth/speaker_model.py:74 | a similarity equal to the threshold is rejected |
| SpeakerModel.EmbedAll | voiceauth/speaker_model.py:86-89 | one embedding per waveform |
| SpeakerModel.EmbedAllExact | voiceauth/speaker_model.py:86-89 | on success, embedding `i` is waveform `i`'s embedding, in order |
| SpeakerModel.MeanEmbedding | voiceauth/speaker_model.py:90 | defined iff the list is non-empty and rectangular; the elementwise mean, of one embedding's size |
| SpeakerModel.EnrollSpeaker | voiceauth/speaker_model.py:80-93 | the loop embeds each waveform in order, fails on the first failure, then returns the mean embedding |
| SpeakerModel.EmbedFailurePersists | voiceauth/speaker_model.py:87-93 | after a failed embedding, later waveforms change nothing |
| SpeakerModel.EmbedAllSucceeds | voiceauth/speaker_model.py:86-89 | every embedding succeeding makes the batch succeed |
| SpeakerModel.EnrollNothingFails | voiceauth/speaker_model.py:90 | enrolling no waveforms raises: stacking an empty list fails |
| SpeakerModel.MeanOfIdentical | voiceauth/speaker_model.py:90 | identical embeddings average to themselves |
| Verifier.ThresholdPath | voiceauth/voice_verifier.py:21-23 | a speaker's threshold file name ends in `_threshold.json` |
| Verifier.EmbeddingPath | voiceauth/voice_verifier.py:25-27 | a speaker's embedding file name ends in `_embedding.pt` |
| Verifier.ModelDirectoryJoined | voiceauth/voice_verifier.py:19-27 | the model directory is `voiceauth/model` |
| Verifier.PathsDiffer | voiceauth/voice_verifier.py:21-27 | a speaker's embedding and threshold files never share a path |
| Verifier.VadFrameSize | voiceauth/vad.py:17 | at 16 kHz the detector frames audio in 320-sample runs |
| Verifier.Speech | voiceauth/voice_verifier.py:39-42 | a load failure passes through, and the detected speech is never longer than the loaded signal |
| Verifier.AsWrittenSpeech | voiceauth/voice_verifier.py:39-42 | as written, reading speech always raises, with the missing-attribute error once the file loads |
| Verifier.ReadSpeech | voiceauth/voice_verifier.py:39-42 | the intended reading is the detected speech; only it can succeed |
| Verifier.SpeechIsNeverEmpty | voiceauth/voice_verifier.py:42-43 | detected speech holds at least one 320-sample frame |
| Verifier.AsWrittenSpeechFails | voiceauth/voice_verifier.py:39-42 | as written, reading any file's speech raises |
| Verifier.Unsqueeze | voiceauth/voice_verifier.py:44 | `unsqueeze(0)` gives shape `[1, T]`, which `preprocess_audio` brings to the same `[1, 1, T]` as the 1-D signal |
| Verifier.UnsqueezedEmbedding | voiceauth/voice_verifier.py:107 | the unsqueezed speech is embedded exactly as the 1-D speech would be: the encoder receives `[1, 1, T]` holding the samples |
| Verifier.Samples | voiceauth/voice_verifier.py:35-44 | at most one sample per `.wav` entry |
| Verifier.SamplesReadEveryWav | voiceauth/voice_verifier.py:36-44 | samples come back only when every `.wav` file yields speech |
| Verifier.SamplesWhenEveryWavReads | voiceauth/voice_verifier.py:36-44 | when every `.wav` file yields non-empty speech, the samples are that speech, one per entry, in listing order |
| Verifier.SamplesExact | voiceauth/voice_verifier.py:35-44 | with no empty speech, the samples succeed iff every `.wav` file yields speech, one per `.wav` entry, in listing order |
| Verifier.SamplesFailurePersists | voiceauth/voice_verifier.py:36-44 | after a failing file, later entries change nothing |
| Verifier.PairSimilarity | voiceauth/voice_verifier.py:64 | the similarity kept from `verify_speaker` is the model's similarity, whatever the threshold |
| Verifier.RowSimilarities | voiceauth/voice_verifier.py:61-65 | a completed row for sample `i` among `n` holds `n - 1` entries when `i < n`, else `n` |
| Verifier.CrossSimilarities | voiceauth/voice_verifier.py:58-65 | the similarities are computed only if every row succeeds |
| Verifier.RowExact | voiceauth/voice_verifier.py:61-65 | a row succeeds iff each comparison does, with one entry per other sample in index order |
| Verifier.RowFailurePersists | voiceauth/voice_verifier.py:61-65 | after a failing comparison the rest of the row changes nothing |
| Verifier.CrossFailurePersists | voiceauth/voice_verifier.py:59-65 | after a failing row the later rows change nothing |
| Verifier.RowStep | voiceauth/voice_verifier.py:61-65 | one inner step skips `i == j`, appends a similarity, or fails for good |
| Verifier.CrossCount | voiceauth/voice_verifier.py:58-65 | the first `m` rows hold `m * (N - 1)` similarities |
| Verifier.CrossSucceedsIff | voiceauth/voice_verifier.py:58-65 | the rows succeed iff every comparison of a sample with another does |
| Verifier.CrossHoldsEveryPair | voiceauth/voice_verifier.py:58-65 | every ordered pair `i != j` contributes its similarity |
| Verifier.EnrollmentThreshold | voiceauth/voice_verifier.py:68 | the threshold is NaN exactly when there are no similarities |
| Verifier.ThresholdBelowMean | voiceauth/voice_verifier.py:68 | with a non-negative square root, `mean - std` is finite and at most the mean |
| Verifier.UniformSimilarities | voiceauth/voice_verifier.py:68 | identical similarities give that similarity as threshold |
| Verifier.EnrollmentVia | voiceauth/voice_verifier.py:33-80 | nothing is enrolled unless the listing succeeds, has a `.wav` entry, and every `.wav` file yields speech |
| Verifier.EnrollmentOf | voiceauth/voice_verifier.py:33-80 | following the corrected reading of line 42, an enrollment that stores anything read speech from every listed `.wav` file |
| Verifier.AsWrittenEnrollmentFails | voiceauth/voice_verifier.py:36-48 | as written, enrollment never succeeds |
| Verifier.IntendedEnrollmentSucceeds | voiceauth/voice_verifier.py:33-76 | with a `.wav` entry, speech in every `.wav` file, a succeeding encoder of one size and computable similarities, enrollment stores embedding and threshold |
| Verifier.OtherNamesIgnored | voiceauth/voice_verifier.py:37 | names not ending in `.wav` are never read |
| Verifier.NoWavFilesRejected | voiceauth/voice_verifier.py:36-48 | a directory without `.wav` entries enrolls nobody |
| Verifier.SingleSampleThresholdIsNaN | voiceauth/voice_verifier.py:58-68 | one usable sample yields no similarities and a NaN threshold |
| Verifier.SimilarityCount | voiceauth/voice_verifier.py:58-65 | `N` samples give exactly `N * (N - 1)` similarities |
| Verifier.StoredThresholdIsUsed | voiceauth/voice_verifier.py:111 | the threshold cached for a speaker is the one that speaker is verified against, and caching it changes no other speaker's threshold |
| Verifier.DecideVia | voiceauth/voice_verifier.py:100-122 | a failed speech read is refused with its error; a decision keeps the given threshold and accepts exactly when the similarity exceeds a finite threshold |
| Verifier.Decide | voiceauth/voice_verifier.py:100-122 | following the corrected reading of line 101, a load failure is refused with its error, and a decision comes only from a loaded file with detected speech |
| Verifier.AsWrittenVerificationRefuses | voiceauth/voice_verifier.py:100-101 | as written, every verification returns an error |
| Verifier.DecisionIsStrictComparison | voiceauth/voice_verifier.py:100-122 | a decision reports the test sample's similarity and the threshold, and `verified` iff similarity > threshold |
| Verifier.DetectedSpeechIsDecided | voiceauth/voice_verifier.py:100-116 | detected, embedded and compared speech is decided: the "No speech detected" branch never runs |
| Verifier.NaNThresholdRejects | voiceauth/voice_verifier.py:111-116 | a NaN threshold rejects everything |
| Verifier.LookupOf | voiceauth/voice_verifier.py:87-97 | cached exactly when the speaker is in the cache; "not enrolled" exactly when uncached with either file absent; a load takes the tensor and the `threshold` field from the two files |
| Verifier.PersistedEnrollmentReloads | voiceauth/voice_verifier.py:54-97 | what enrollment writes is read back unchanged by a verifier with an empty cache |
| Verifier.EmbeddingAloneIsNotEnrolled | voiceauth/voice_verifier.py:87-93 | an embedding saved without a threshold leaves the speaker not enrolled on disk |
| Verifier.CollectSamples | voiceauth/voice_verifier.py:35-44 | the loop's result is the enrollment samples of the listing |
| Verifier.CompareSamples | voiceauth/voice_verifier.py:58-65 | the nested loops compute the similarities of every ordered pair, row by row |
| Verifier.FileStore.constructor | voiceauth/voice_verifier.py:19 | the store holds the given files |
| Verifier.VoiceVerifier.constructor | voiceauth/voice_verifier.py:12-16 | both dictionaries start empty |
| Verifier.VoiceVerifier.EnrollSpeaker | voiceauth/voice_verifier.py:29-80 | true iff embedding and threshold were both stored; rejection changes nothing; a failure after line 55 leaves only the new embedding cached and saved; success caches and saves both; a threshold is cached only for a cached embedding; this follows the corrected reading of line 42 (see ## Findings) |
| Verifier.VoiceVerifier.VerifySpeaker | voiceauth/voice_verifier.py:82-126 | an uncached speaker missing a file gets "Speaker not enrolled" with both dictionaries unchanged; loading caches the embedding, then the threshold; the verdict decides the test sample against the cached embedding and `thresholds.get(username, 0.7)`; the files are only read; every refused load leaves no threshold cached for the speaker (the Valid() invariant), so `thresholds.get(username, 0.7)` gives 0.7 and never a stale value; this follows the corrected reading of line 101 (see ## Findings) |

## Left out

- Library computations are parameters, not models: the MFCC extractor, `VarianceThreshold`, `RobustScaler`, the Gaussian mixture fits and `score`, and the SpeechBrain encoder and similarity. `FeaturesFollowMfccFrames` assumes they keep shapes as documented.
- `train_gmm` is not modelled. It covers the UBM load, the precision initialisation at `gmm.py:84-95` and the fit. `train_ubm` is not modelled either.
- I/O is a given function or map: `joblib`, `torch.save`/`torch.load`, `json`, `wavfile.read`, `librosa.load`, `os.listdir`, `os.walk`, `os.path.exists` and `os.makedirs`. A failed write of the embedding or threshold file is not modelled.
- `Gmm.LoadFeaturesFromDirectory` receives the directory listing as a value. The `FileNotFoundError` that `os.listdir` raises at `gmm.py:38` on a missing directory is left to the caller; the `UBM.py` and `voice_verifier.py` loads do model a failing listing.
- `torch.load` of a file that is not a saved tensor, and `json.load` of a file that is not JSON, are approximated: each yields a fixed error message.
- Logging, progress bars and `multiprocessing.Pool` have no behaviour to model. `imap` keeps order, so the per-file results are an ordered list.
- Floating point:
  - numbers are exact reals;
  - the percentile is computed exactly;
  - the `np.std` square root is the parameter `sqrt`.
- `Vad.FrameSizeFor`: the `int(frame_duration * sampling_rate)` truncation is computed exactly on reals. At 16 kHz it is exactly 320 samples.
- `Vad.DetectSpeech` does not model the int16 wrap-around of `frame**2` on raw PCM.
- `FeatureExtraction.PeakNormalise` requires a positive peak. It is applied only to detected speech, which always has one (`FeatureExtraction.SpeechPeakPositive`), so numpy's division by a zero peak never arises.
- `FeatureExtraction.PeakNormalisedRange` states range and unit peak only. That the output is the input rescaled by one factor is left to the definition.
- `Percentile.Percentile` requires a non-empty input. That is numpy's own failure case, which `Gmm.ThresholdFromScores` returns as an error.
- A matrix without rows carries no width, so stacking 0-row results never disagrees in width. numpy would compare their widths.
- Python exception texts are approximated by fixed messages.
- `Verifier.VoiceVerifier.VerifySpeaker` does not re-read a cached speaker's files, just as the source does not. A cached embedding therefore never reflects later changes on disk.
- `preprocess_audio` would raise `TypeError` at `speaker_model.py:39`, because `torch.from_numpy` receives the torch tensors built at `voice_verifier.py:44` and `:107`. The model follows the intent: the signal reaches the encoder as an array. This is the second of the two corrections listed under Findings; the first alone would still end in this `TypeError`.
- `Verifier.SamplesExact` assumes no read yields empty speech. Such a read would be skipped, but detected speech is never empty (`Verifier.SpeechIsNeverEmpty`). `Verifier.SamplesReadEveryWav` needs no such assumption.
- Audio is a mono signal (`seq<real>`). A stereo result of `wavfile.read` (`UBM.py:18`, `gmm.py:19`) is not modelled.
- The rest of the repository is not modelled: `DeepfakeDetection/train.py`, `DeepfakeDetection/prepare_training_data.py`, `main.py`, `register_user.py` and `voice_auth.py` (CNN training, data preparation, microphone and CLI glue).

## Findings

| source | as written | input that shows it | evidently intended | confidence | as-written member | corrected member |
|---|---|---|---|---|---|---|
| voiceauth/voice_verifier.py:42, 101 | `detect_speech(waveform.numpy()[0], 16000)` calls `.numpy()` on the numpy array that `load_audio` returns (`speaker_model.py:96-104`), which raises `AttributeError`. Every `.wav` file makes `enroll_speaker` return False, and every `verify_speaker` of a known speaker returns an error. | any directory holding one readable `.wav` file; any readable test file | hand the loaded 1-D signal itself to `detect_speech`, and hand `get_embedding` an array rather than the tensor built at `voice_verifier.py:44` and `:107` (otherwise `torch.from_numpy` raises `TypeError` at `speaker_model.py:39`); Verifier.IntendedEnrollmentSucceeds proves the program with both corrections | high, not executed | Verifier.AsWrittenEnrollmentFails | Verifier.IntendedEnrollmentSucceeds |

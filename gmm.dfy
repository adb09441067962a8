/**
 * Speaker-model training support in `voiceauth/gmm.py`: the authentication threshold derived
 * from the training log-likelihoods, the name and content of the threshold file written next
 * to the model, and the loading of one directory of recordings into a feature matrix.
 * The mixture fit itself and its `score` are abstract.
 */
module Gmm {
  import opened Common
  import Percentile

  /** `np.percentile(log_likelihoods, 90)`. */
  const ScorePercentile: nat := 90
  /** The margin subtracted from the percentile. */
  const Margin: real := 6.0
  /** numpy's message for the percentile of an empty array. */
  const EmptyScores: string := "index -1 is out of bounds for axis 0 with size 0"
  /** numpy's message when the matrices to stack disagree in width. */
  const WidthMismatch: string := "all the input array dimensions except for the concatenation axis must match exactly"

  // ---------------------------------------------------------------- threshold

  /** The threshold obtained from a list of scores: their 90th percentile less the margin. */
  function ThresholdFromScores(scores: seq<real>): (r: Result<real>)
    ensures r.Ok? <==> |scores| > 0
  {
    if |scores| == 0 then Err(EmptyScores)
    else Ok(Percentile.Percentile(scores, ScorePercentile) - Margin)
  }

  /**
   * `calculate_threshold(gmm_model, features)`: score every row, as a one-row matrix, in order,
   * then take the threshold of those scores. Returns the threshold together with the scores.
   */
  method CalculateThreshold(score: Matrix -> real, features: Matrix) returns (r: Result<(real, seq<real>)>)
    ensures r.Ok? <==> |features| > 0
    ensures r.Ok? ==> |r.value.1| == |features|
    ensures r.Ok? ==> forall i :: 0 <= i < |features| ==> r.value.1[i] == score([features[i]])
    ensures r.Ok? ==> ThresholdFromScores(r.value.1) == Ok(r.value.0)
  {
    var logLikelihoods: seq<real> := [];
    for i := 0 to |features|
      invariant |logLikelihoods| == i
      invariant forall k :: 0 <= k < i ==> logLikelihoods[k] == score([features[k]])
    {
      var featureSet: Matrix := [features[i]];
      logLikelihoods := logLikelihoods + [score(featureSet)];
    }
    var threshold := ThresholdFromScores(logLikelihoods);
    if threshold.Err? {
      return Err(threshold.msg);
    }
    return Ok((threshold.value, logLikelihoods));
  }

  /** A single training row gives its own score less the margin. */
  lemma ThresholdOfOneScore(s: real)
    ensures ThresholdFromScores([s]) == Ok(s - Margin)
  {
    Percentile.PercentileOfOne(s, ScorePercentile);
  }

  /** The threshold lies in `[min(scores) - 6, max(scores) - 6]`. */
  lemma ThresholdWithinRange(scores: seq<real>)
    requires |scores| > 0
    ensures MinOf(scores) - Margin <= ThresholdFromScores(scores).value <= MaxOf(scores) - Margin
  {
    Percentile.PercentileWithinRange(scores, ScorePercentile);
  }

  /** The order in which the rows were scored does not matter. */
  lemma ThresholdPermutation(scores: seq<real>, scores': seq<real>)
    requires multiset(scores) == multiset(scores')
    ensures ThresholdFromScores(scores) == ThresholdFromScores(scores')
  {
    assert |scores| == |multiset(scores)| == |multiset(scores')| == |scores'|;
    if |scores| > 0 {
      Percentile.PercentilePermutation(scores, scores', ScorePercentile);
    }
  }

  /** Raising any score never lowers the threshold. */
  lemma ThresholdMonotone(scores: seq<real>, scores': seq<real>)
    requires |scores| == |scores'| > 0
    requires forall i :: 0 <= i < |scores| ==> scores[i] <= scores'[i]
    ensures ThresholdFromScores(scores).value <= ThresholdFromScores(scores').value
  {
    Percentile.PercentileMonotone(scores, scores', ScorePercentile);
  }

  /** Ten training scores: the virtual index is 8.1, the percentile -8.9 and the threshold -14.9. */
  lemma ThresholdFixture()
    ensures Percentile.Percentile([-10.0, -12.0, -9.0, -15.0, -8.0, -11.0, -13.0, -9.0, -10.0, -14.0], 90) == -8.9
    ensures ThresholdFromScores([-10.0, -12.0, -9.0, -15.0, -8.0, -11.0, -13.0, -9.0, -10.0, -14.0]) == Ok(-14.9)
  {
    FixtureSorted();
    assert Percentile.LowerRank(10, 90) == 8 by {
      DivUnique(810, 100, 8);
    }
    assert Percentile.RankFraction(10, 90) == 0.1;
    assert Percentile.Interpolate(-9.0, -8.0, 0.1) == -8.9;
  }

  /** The fixture sorted, one insertion at a time. */
  lemma FixtureSorted()
    ensures Percentile.Sort([-10.0, -12.0, -9.0, -15.0, -8.0, -11.0, -13.0, -9.0, -10.0, -14.0])
         == [-15.0, -14.0, -13.0, -12.0, -11.0, -10.0, -10.0, -9.0, -9.0, -8.0]
  {
    FixtureSortedUpTo9();
  }

  lemma FixtureSortedUpTo1()
    ensures Percentile.Sort([-10.0, -12.0]) == [-12.0, -10.0]
  {
    assert Percentile.Sort([-10.0]) == [-10.0];
    Percentile.SortStep([-10.0], -12.0, 0);
    assert [-10.0] + [-12.0] == [-10.0, -12.0];
  }

  lemma FixtureSortedUpTo2()
    ensures Percentile.Sort([-10.0, -12.0, -9.0]) == [-12.0, -10.0, -9.0]
  {
    FixtureSortedUpTo1();
    Percentile.SortStep([-10.0, -12.0], -9.0, 2);
    assert [-10.0, -12.0] + [-9.0] == [-10.0, -12.0, -9.0];
  }

  lemma FixtureSortedUpTo3()
    ensures Percentile.Sort([-10.0, -12.0, -9.0, -15.0]) == [-15.0, -12.0, -10.0, -9.0]
  {
    FixtureSortedUpTo2();
    Percentile.SortStep([-10.0, -12.0, -9.0], -15.0, 0);
    assert [-10.0, -12.0, -9.0] + [-15.0] == [-10.0, -12.0, -9.0, -15.0];
  }

  lemma FixtureSortedUpTo4()
    ensures Percentile.Sort([-10.0, -12.0, -9.0, -15.0, -8.0]) == [-15.0, -12.0, -10.0, -9.0, -8.0]
  {
    FixtureSortedUpTo3();
    Percentile.SortStep([-10.0, -12.0, -9.0, -15.0], -8.0, 4);
    assert [-10.0, -12.0, -9.0, -15.0] + [-8.0] == [-10.0, -12.0, -9.0, -15.0, -8.0];
  }

  lemma FixtureSortedUpTo5()
    ensures Percentile.Sort([-10.0, -12.0, -9.0, -15.0, -8.0, -11.0]) == [-15.0, -12.0, -11.0, -10.0, -9.0, -8.0]
  {
    FixtureSortedUpTo4();
    Percentile.SortStep([-10.0, -12.0, -9.0, -15.0, -8.0], -11.0, 2);
    assert [-10.0, -12.0, -9.0, -15.0, -8.0] + [-11.0] == [-10.0, -12.0, -9.0, -15.0, -8.0, -11.0];
  }

  lemma FixtureSortedUpTo6()
    ensures Percentile.Sort([-10.0, -12.0, -9.0, -15.0, -8.0, -11.0, -13.0]) == [-15.0, -13.0, -12.0, -11.0, -10.0, -9.0, -8.0]
  {
    FixtureSortedUpTo5();
    Percentile.SortStep([-10.0, -12.0, -9.0, -15.0, -8.0, -11.0], -13.0, 1);
    assert [-10.0, -12.0, -9.0, -15.0, -8.0, -11.0] + [-13.0] == [-10.0, -12.0, -9.0, -15.0, -8.0, -11.0, -13.0];
  }

  lemma FixtureSortedUpTo7()
    ensures Percentile.Sort([-10.0, -12.0, -9.0, -15.0, -8.0, -11.0, -13.0, -9.0]) == [-15.0, -13.0, -12.0, -11.0, -10.0, -9.0, -9.0, -8.0]
  {
    FixtureSortedUpTo6();
    Percentile.SortStep([-10.0, -12.0, -9.0, -15.0, -8.0, -11.0, -13.0], -9.0, 5);
    assert [-10.0, -12.0, -9.0, -15.0, -8.0, -11.0, -13.0] + [-9.0] == [-10.0, -12.0, -9.0, -15.0, -8.0, -11.0, -13.0, -9.0];
  }

  lemma FixtureSortedUpTo8()
    ensures Percentile.Sort([-10.0, -12.0, -9.0, -15.0, -8.0, -11.0, -13.0, -9.0, -10.0]) == [-15.0, -13.0, -12.0, -11.0, -10.0, -10.0, -9.0, -9.0, -8.0]
  {
    FixtureSortedUpTo7();
    Percentile.SortStep([-10.0, -12.0, -9.0, -15.0, -8.0, -11.0, -13.0, -9.0], -10.0, 4);
    assert [-10.0, -12.0, -9.0, -15.0, -8.0, -11.0, -13.0, -9.0] + [-10.0] == [-10.0, -12.0, -9.0, -15.0, -8.0, -11.0, -13.0, -9.0, -10.0];
  }

  lemma FixtureSortedUpTo9()
    ensures Percentile.Sort([-10.0, -12.0, -9.0, -15.0, -8.0, -11.0, -13.0, -9.0, -10.0, -14.0]) == [-15.0, -14.0, -13.0, -12.0, -11.0, -10.0, -10.0, -9.0, -9.0, -8.0]
  {
    FixtureSortedUpTo8();
    Percentile.SortStep([-10.0, -12.0, -9.0, -15.0, -8.0, -11.0, -13.0, -9.0, -10.0], -14.0, 1);
    assert [-10.0, -12.0, -9.0, -15.0, -8.0, -11.0, -13.0, -9.0, -10.0] + [-14.0] == [-10.0, -12.0, -9.0, -15.0, -8.0, -11.0, -13.0, -9.0, -10.0, -14.0];
  }

  // ---------------------------------------------------------------- threshold file name

  /** `pat` occurs somewhere in `s`. */
  predicate Occurs(s: string, pat: string)
    decreases |s|
  {
    |pat| <= |s| && (s[..|pat|] == pat || Occurs(s[1..], pat))
  }

  /** `pat` starts at position `i` of `s`. */
  predicate StartsAt(s: string, pat: string, i: int) {
    0 <= i && i + |pat| <= |s| && s[i..i + |pat|] == pat
  }

  /** `Occurs` agrees with the search for a position where `pat` starts. */
  lemma {:induction false} OccursAt(s: string, pat: string)
    ensures Occurs(s, pat) <==> exists i :: StartsAt(s, pat, i)
    decreases |s|
  {
    if |pat| <= |s| {
      if s[..|pat|] == pat {
        assert StartsAt(s, pat, 0);
      } else {
        OccursAt(s[1..], pat);
        forall i | 0 < i ensures StartsAt(s, pat, i) <==> StartsAt(s[1..], pat, i - 1) {
          if i + |pat| <= |s| {
            assert s[1..][i - 1..i - 1 + |pat|] == s[i..i + |pat|];
          }
        }
        assert !StartsAt(s, pat, 0);
        if Occurs(s[1..], pat) {
          var i :| StartsAt(s[1..], pat, i);
          assert StartsAt(s, pat, i + 1);
        }
      }
    }
  }

  /**
   * Python's `s.replace(pat, rep)` for a non-empty `pat`: every occurrence, scanning left to
   * right, is replaced; occurrences do not overlap.
   */
  function Replace(s: string, pat: string, rep: string): (r: string)
    requires |pat| > 0
    ensures |pat| <= |rep| ==> |s| <= |r|
    ensures |pat| == |rep| ==> |r| == |s|
    decreases |s|
  {
    if |s| < |pat| then s
    else if s[..|pat|] == pat then rep + Replace(s[|pat|..], pat, rep)
    else [s[0]] + Replace(s[1..], pat, rep)
  }

  /** A replacement that is longer than the pattern lengthens the string as soon as it applies. */
  lemma {:induction false} ReplaceLength(s: string, pat: string, rep: string)
    requires 0 < |pat| < |rep|
    ensures |Replace(s, pat, rep)| >= |s|
    ensures Occurs(s, pat) <==> |Replace(s, pat, rep)| > |s|
    decreases |s|
  {
    if |s| >= |pat| {
      if s[..|pat|] == pat {
        ReplaceLength(s[|pat|..], pat, rep);
      } else {
        ReplaceLength(s[1..], pat, rep);
      }
    }
  }

  /** Without the pattern the string comes back unchanged. */
  lemma {:induction false} ReplaceAbsent(s: string, pat: string, rep: string)
    requires |pat| > 0 && !Occurs(s, pat)
    ensures Replace(s, pat, rep) == s
    decreases |s|
  {
    if |s| >= |pat| {
      ReplaceAbsent(s[1..], pat, rep);
      assert s == [s[0]] + s[1..];
    }
  }

  /** `model_path.replace('.gmm', '_threshold.json')`, never shorter than the model path. */
  function ThresholdPath(modelPath: string): (p: string)
    ensures |modelPath| <= |p|
  {
    Replace(modelPath, ".gmm", "_threshold.json")
  }

  /**
   * The threshold file lands on the model path itself exactly when that path holds no `.gmm`;
   * the record then overwrites the model just written.
   */
  lemma ThresholdPathIsModelPath(modelPath: string)
    ensures ThresholdPath(modelPath) == modelPath <==> !Occurs(modelPath, ".gmm")
  {
    ReplaceLength(modelPath, ".gmm", "_threshold.json");
    if !Occurs(modelPath, ".gmm") {
      ReplaceAbsent(modelPath, ".gmm", "_threshold.json");
    }
  }

  /** The usual case: a path ending in its only `.gmm` gets `_threshold.json` in its place. */
  lemma {:induction false} ThresholdPathOfStem(stem: string)
    requires !Occurs(stem, ".gmm")
    ensures ThresholdPath(stem + ".gmm") == stem + "_threshold.json"
    decreases |stem|
  {
    var s := stem + ".gmm";
    if |stem| == 0 {
      assert s == ".gmm";
      assert s[4..] == "";
    } else {
      PrefixIsNotPattern(stem);
      assert s[1..] == stem[1..] + ".gmm";
      assert !Occurs(stem[1..], ".gmm");
      ThresholdPathOfStem(stem[1..]);
      assert stem == [stem[0]] + stem[1..];
    }
  }

  /** No proper tail of `.gmm` is also its head, so a `.gmm` cannot start inside a stem free of one. */
  lemma PrefixIsNotPattern(stem: string)
    requires 0 < |stem| && !Occurs(stem, ".gmm")
    ensures (stem + ".gmm")[..4] != ".gmm"
  {
    var s := stem + ".gmm";
    if |stem| >= 4 {
      assert s[..4] == stem[..4];
    } else {
      assert s[|stem|..4] == ".gmm"[..4 - |stem|];
      assert ".gmm"[|stem|..] != ".gmm"[..4 - |stem|] by {
        if |stem| == 1 {
          assert ".gmm"[1..][0] == 'g';
        } else if |stem| == 2 {
          assert ".gmm"[2..][0] == 'm';
        } else {
          assert ".gmm"[3..][0] == 'm';
        }
      }
    }
  }

  // ---------------------------------------------------------------- saving the model

  /**
   * `save_gmm_model(gmm_model, model_path, threshold)` on a file system given as a map from path
   * to content. `writable` says which paths can be opened for writing; a failed write is caught
   * and logged, so the step that failed and every later one leave the files as they were.
   */
  function SaveGmmModel(files: map<string, Artifact>, writable: string -> bool, modelId: nat,
                        modelPath: string, threshold: Option<real>): (r: map<string, Artifact>)
    ensures forall p :: p != modelPath && p != ThresholdPath(modelPath) ==>
      (p in r <==> p in files) && (p in files ==> r[p] == files[p])
  {
    if !writable(modelPath) then files
    else
      var dumped := files[modelPath := ModelDump(modelId)];
      if threshold.None? || !writable(ThresholdPath(modelPath)) then dumped
      else dumped[ThresholdPath(modelPath) := ThresholdRecord(Finite(threshold.value))]
  }

  /** Without a threshold only the model is written. */
  lemma SaveWithoutThreshold(files: map<string, Artifact>, writable: string -> bool, modelId: nat, modelPath: string)
    requires writable(modelPath)
    ensures var r := SaveGmmModel(files, writable, modelId, modelPath, None);
      r.Keys == files.Keys + {modelPath} && r[modelPath] == ModelDump(modelId)
  {
  }

  /**
   * With a threshold and writable paths, the threshold file holds the flat record
   * `{'threshold': t}`; the model stays at its path unless the two paths coincide.
   */
  lemma SaveWithThreshold(files: map<string, Artifact>, writable: string -> bool, modelId: nat, modelPath: string, t: real)
    requires writable(modelPath) && writable(ThresholdPath(modelPath))
    ensures var r := SaveGmmModel(files, writable, modelId, modelPath, Some(t));
      r.Keys == files.Keys + {modelPath, ThresholdPath(modelPath)}
      && r[ThresholdPath(modelPath)].JsonRecord?
      && r[ThresholdPath(modelPath)].fields.Keys == {"threshold"}
      && r[ThresholdPath(modelPath)].fields["threshold"] == Finite(t)
      && (Occurs(modelPath, ".gmm") ==> r[modelPath] == ModelDump(modelId))
      && (!Occurs(modelPath, ".gmm") ==> r[modelPath] == ThresholdRecord(Finite(t)))
  {
    ThresholdPathIsModelPath(modelPath);
  }

  /** When the model cannot be written nothing is. */
  lemma SaveFailsCleanly(files: map<string, Artifact>, writable: string -> bool, modelId: nat,
                         modelPath: string, threshold: Option<real>)
    requires !writable(modelPath)
    ensures SaveGmmModel(files, writable, modelId, modelPath, threshold) == files
  {
  }

  // ---------------------------------------------------------------- loading a directory

  /** The paths handed to `process_file`: the `.wav` names of the listing joined to the directory. */
  function WavPaths(directory: string, listing: seq<string>): (paths: seq<string>)
    ensures |paths| == |WavNames(listing)|
    ensures forall i :: 0 <= i < |paths| ==> paths[i] == Join(directory, WavNames(listing)[i])
  {
    var names := WavNames(listing);
    seq(|names|, i requires 0 <= i < |names| => Join(directory, names[i]))
  }

  /** What `process_file` returns for each of those paths, in order (`pool.imap` keeps order). */
  function Results(process: string -> Option<Matrix>, directory: string, listing: seq<string>): (rs: seq<Option<Matrix>>)
    ensures |rs| == |WavNames(listing)|
    ensures forall i :: 0 <= i < |rs| ==> rs[i] == process(Join(directory, WavNames(listing)[i]))
  {
    var paths := WavPaths(directory, listing);
    seq(|paths|, i requires 0 <= i < |paths| => process(paths[i]))
  }

  /** The paths handed to `process_file` are exactly the joined `.wav` names of the listing. */
  lemma WavPathsExact(directory: string, listing: seq<string>, p: string)
    ensures p in WavPaths(directory, listing) <==>
      exists n :: n in listing && EndsWith(n, ".wav") && p == Join(directory, n)
  {
    var names := WavNames(listing);
    WavNamesExact(listing);
    if p in WavPaths(directory, listing) {
      var i :| 0 <= i < |names| && p == WavPaths(directory, listing)[i];
      assert names[i] in names;
    }
    if exists n :: n in listing && EndsWith(n, ".wav") && p == Join(directory, n) {
      var n :| n in listing && EndsWith(n, ".wav") && p == Join(directory, n);
      assert n in names;
      var i :| 0 <= i < |names| && names[i] == n;
      assert WavPaths(directory, listing)[i] == p;
    }
  }

  /**
   * One more name in the listing adds its result at the end when it is a `.wav` name and
   * nothing otherwise: the results follow the listing's order, one per `.wav` name.
   */
  lemma ResultsAppend(process: string -> Option<Matrix>, directory: string, listing: seq<string>, name: string)
    ensures Results(process, directory, listing + [name])
         == Results(process, directory, listing) + (if EndsWith(name, ".wav") then [process(Join(directory, name))] else [])
  {
    assert (listing + [name])[..|listing + [name]| - 1] == listing;
    var before := Results(process, directory, listing);
    var after := Results(process, directory, listing + [name]);
    var extra := if EndsWith(name, ".wav") then [process(Join(directory, name))] else [];
    assert |after| == |before| + |extra|;
    forall i | 0 <= i < |after| ensures after[i] == (before + extra)[i] {
      if i < |before| {
        assert WavNames(listing + [name])[i] == WavNames(listing)[i];
      }
    }
  }

  /** The per-file results that are not `None`, in processing order. */
  function Processed(process: string -> Option<Matrix>, directory: string, listing: seq<string>): seq<Matrix> {
    Somes(Results(process, directory, listing))
  }

  /**
   * `load_features_from_directory(directory)` of `voiceauth/gmm.py`, given the directory listing
   * and the per-file extraction: the successful results stacked in order, or the empty
   * array when there are none. Stacking matrices of different widths raises.
   */
  function LoadFeaturesFromDirectory(process: string -> Option<Matrix>, directory: string,
                                     listing: seq<string>): (r: Result<Matrix>)
    ensures Processed(process, directory, listing) == [] ==> r == Ok([])
    ensures Processed(process, directory, listing) != [] ==>
      (r.Ok? <==> VStack(Processed(process, directory, listing)).Some?)
    ensures r.Ok? && Processed(process, directory, listing) != [] ==>
      var kept := Processed(process, directory, listing);
      |r.value| == TotalRows(kept)
      && forall k :: 0 <= k < |kept| ==>
        var start := TotalRows(kept[..k]);
        start + |kept[k]| <= |r.value| && r.value[start..start + |kept[k]|] == kept[k]
  {
    var kept := Processed(process, directory, listing);
    if |kept| == 0 then Ok([])
    else
      match VStack(kept)
      case None => Err(WidthMismatch)
      case Some(m) => Ok(m)
  }

  /** Names that do not end in `.wav` are never processed. */
  lemma IgnoresOtherNames(process: string -> Option<Matrix>, directory: string, listing: seq<string>, name: string)
    requires !EndsWith(name, ".wav")
    ensures LoadFeaturesFromDirectory(process, directory, listing + [name])
         == LoadFeaturesFromDirectory(process, directory, listing)
  {
    assert (listing + [name])[..|listing + [name]| - 1] == listing;
    assert WavNames(listing + [name]) == WavNames(listing);
    assert WavPaths(directory, listing + [name]) == WavPaths(directory, listing);
    assert Results(process, directory, listing + [name]) == Results(process, directory, listing);
  }

  /** When every file fails the result is the empty array, not an error. */
  lemma AllFailuresGiveEmpty(process: string -> Option<Matrix>, directory: string, listing: seq<string>)
    requires forall n :: n in listing && EndsWith(n, ".wav") ==> process(Join(directory, n)).None?
    ensures LoadFeaturesFromDirectory(process, directory, listing) == Ok([])
  {
    var results := Results(process, directory, listing);
    WavNamesExact(listing);
    forall i | 0 <= i < |results| ensures results[i].None? {
      assert WavNames(listing)[i] in WavNames(listing);
    }
    NoSomes(results);
  }

  /** Results of one width always stack, so loading then succeeds. */
  lemma SameWidthLoads(process: string -> Option<Matrix>, directory: string, listing: seq<string>, w: nat)
    requires forall p :: process(p).Some? ==> forall i :: 0 <= i < |process(p).value| ==> |process(p).value[i]| == w
    ensures LoadFeaturesFromDirectory(process, directory, listing).Ok?
  {
    var results := Results(process, directory, listing);
    var kept := Somes(results);
    SomesExact(results);
    forall k | 0 <= k < |kept| ensures forall i :: 0 <= i < |kept[k]| ==> |kept[k][i]| == w {
      assert kept[k] in kept;
      assert Some(kept[k]) in results;
      var j :| 0 <= j < |results| && results[j] == Some(kept[k]);
      assert process(Join(directory, WavNames(listing)[j])) == Some(kept[k]);
    }
    VStackSameWidth(kept, w);
    assert kept == Processed(process, directory, listing);
    assert VStack(kept).Some?;
  }
}

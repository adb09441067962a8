/**
 * Corpus loading for the universal background model in `voiceauth/UBM.py`: every `.wav` file
 * under a directory tree is processed, the usable feature matrices are stacked, and the
 * script pools the corpora of its data directories before fitting. The fit is abstract.
 */
module Ubm {
  import opened Common

  /** The directories pooled by the training script, in order. */
  const DataDirectories: seq<string> := ["Data", "recordings"]
  /** numpy's message when the matrices to stack disagree in width. */
  const WidthMismatch: string := "all the input array dimensions except for the concatenation axis must match exactly"

  /** One step of `os.walk`: a directory and the names of the files directly inside it. */
  datatype WalkEntry = WalkEntry(root: string, files: seq<string>)

  // ---------------------------------------------------------------- collecting the files

  /** The `.wav` files of one walk step, as joined paths, in listing order. */
  function EntryWavPaths(root: string, files: seq<string>): (paths: seq<string>)
    ensures |paths| <= |files|
    ensures forall i :: 0 <= i < |paths| ==> EndsWith(paths[i], ".wav")
  {
    if |files| == 0 then []
    else
      var last := files[|files| - 1];
      if EndsWith(last, ".wav") then
        JoinKeepsSuffix(root, last, ".wav");
        EntryWavPaths(root, files[..|files| - 1]) + [Join(root, last)]
      else EntryWavPaths(root, files[..|files| - 1])
  }

  /** The `.wav` files of the whole walk, step after step; each collected path ends in `.wav`. */
  function WalkWavPaths(walk: seq<WalkEntry>): (paths: seq<string>)
    ensures forall i :: 0 <= i < |paths| ==> EndsWith(paths[i], ".wav")
  {
    if |walk| == 0 then []
    else WalkWavPaths(walk[..|walk| - 1]) + EntryWavPaths(walk[|walk| - 1].root, walk[|walk| - 1].files)
  }

  /** The nested loops over `os.walk(directory)` that gather `wav_files`. */
  method CollectWavFiles(walk: seq<WalkEntry>) returns (wavFiles: seq<string>)
    ensures wavFiles == WalkWavPaths(walk)
  {
    wavFiles := [];
    for e := 0 to |walk|
      invariant wavFiles == WalkWavPaths(walk[..e])
    {
      var entry := walk[e];
      for f := 0 to |entry.files|
        invariant wavFiles == WalkWavPaths(walk[..e]) + EntryWavPaths(entry.root, entry.files[..f])
      {
        assert entry.files[..f + 1][..f] == entry.files[..f];
        if EndsWith(entry.files[f], ".wav") {
          wavFiles := wavFiles + [Join(entry.root, entry.files[f])];
        }
      }
      assert entry.files[..|entry.files|] == entry.files;
      assert walk[..e + 1][..e] == walk[..e];
    }
    assert walk[..|walk|] == walk;
  }

  /** A path of one step is collected exactly when it joins a listed `.wav` name to the step's root. */
  lemma {:induction false} EntryWavPathsExact(root: string, files: seq<string>, p: string)
    ensures p in EntryWavPaths(root, files) <==> exists f :: f in files && EndsWith(f, ".wav") && p == Join(root, f)
  {
    if |files| > 0 {
      var init := files[..|files| - 1];
      EntryWavPathsExact(root, init, p);
      assert files == init + [files[|files| - 1]];
    }
  }

  /** Every `.wav` file anywhere in the walk is collected, and nothing else is. */
  lemma {:induction false} CollectsEveryWav(walk: seq<WalkEntry>, p: string)
    ensures p in WalkWavPaths(walk) <==>
      exists k :: 0 <= k < |walk| && p in EntryWavPaths(walk[k].root, walk[k].files)
  {
    if |walk| > 0 {
      var init := walk[..|walk| - 1];
      CollectsEveryWav(init, p);
      assert forall k :: 0 <= k < |init| ==> init[k] == walk[k];
    }
  }

  /** A walk with no `.wav` name in it collects nothing, so loading it gives the empty array. */
  lemma NoWavCollectsNothing(process: string -> Option<Matrix>, walk: seq<WalkEntry>)
    requires forall k, f :: 0 <= k < |walk| && f in walk[k].files ==> !EndsWith(f, ".wav")
    ensures WalkWavPaths(walk) == []
    ensures DirectoryFeatures(process, walk) == Ok([])
  {
    if WalkWavPaths(walk) != [] {
      var p := WalkWavPaths(walk)[0];
      CollectsEveryWav(walk, p);
      var k :| 0 <= k < |walk| && p in EntryWavPaths(walk[k].root, walk[k].files);
      EntryWavPathsExact(walk[k].root, walk[k].files, p);
    }
  }

  // ---------------------------------------------------------------- loading a directory

  /** A result worth keeping: present and with elements (`features is not None and features.size > 0`). */
  predicate Usable(r: Option<Matrix>) {
    r.Some? && HasElements(r.value)
  }

  /** The usable per-file results for `paths`, in processing order: at most one per path, each with elements. */
  function UsableFeatures(process: string -> Option<Matrix>, paths: seq<string>): (kept: seq<Matrix>)
    ensures |kept| <= |paths|
    ensures forall k :: 0 <= k < |kept| ==> HasElements(kept[k])
  {
    if |paths| == 0 then []
    else
      var last := process(paths[|paths| - 1]);
      UsableFeatures(process, paths[..|paths| - 1]) + (if Usable(last) then [last.value] else [])
  }

  /** Stacking what was kept; no usable result gives the empty array. */
  function Stacked(kept: seq<Matrix>): Result<Matrix> {
    if |kept| == 0 then Ok([])
    else
      match VStack(kept)
      case None => Err(WidthMismatch)
      case Some(m) => Ok(m)
  }

  /**
   * What `load_features_from_directory` returns for a directory whose walk is `walk`; the only
   * exception it raises is numpy's width mismatch.
   */
  function DirectoryFeatures(process: string -> Option<Matrix>, walk: seq<WalkEntry>): (r: Result<Matrix>)
    ensures r.Err? ==> r.msg == WidthMismatch
  {
    var paths := WalkWavPaths(walk);
    if |paths| == 0 then Ok([]) else Stacked(UsableFeatures(process, paths))
  }

  /** `load_features_from_directory(directory)` of `voiceauth/UBM.py`. */
  method LoadFeaturesFromDirectory(process: string -> Option<Matrix>, walk: seq<WalkEntry>) returns (r: Result<Matrix>)
    ensures r == DirectoryFeatures(process, walk)
  {
    var wavFiles := CollectWavFiles(walk);
    if |wavFiles| == 0 {
      return Ok([]);
    }
    var allFeatures: seq<Matrix> := [];
    for i := 0 to |wavFiles|
      invariant allFeatures == UsableFeatures(process, wavFiles[..i])
    {
      assert wavFiles[..i + 1][..i] == wavFiles[..i];
      var features := process(wavFiles[i]);
      if features.Some? && HasElements(features.value) {
        allFeatures := allFeatures + [features.value];
      }
    }
    assert wavFiles[..|wavFiles|] == wavFiles;
    if |allFeatures| == 0 {
      return Ok([]);
    }
    var stacked := VStack(allFeatures);
    if stacked.None? {
      return Err(WidthMismatch);
    }
    return Ok(stacked.value);
  }

  /** Every kept matrix has elements; the kept ones are the usable results in order. */
  lemma {:induction false} UsableFeaturesExact(process: string -> Option<Matrix>, paths: seq<string>)
    ensures forall k :: 0 <= k < |UsableFeatures(process, paths)| ==> HasElements(UsableFeatures(process, paths)[k])
    ensures forall m :: m in UsableFeatures(process, paths) <==> exists p :: p in paths && process(p) == Some(m) && HasElements(m)
  {
    if |paths| > 0 {
      var init := paths[..|paths| - 1];
      UsableFeaturesExact(process, init);
      assert paths == init + [paths[|paths| - 1]];
    }
  }

  /** A file whose features come back present but empty is dropped, unlike in `voiceauth/gmm.py`. */
  lemma DropsEmptyResults(process: string -> Option<Matrix>, paths: seq<string>, p: string)
    requires process(p).Some? && !HasElements(process(p).value)
    ensures UsableFeatures(process, paths + [p]) == UsableFeatures(process, paths)
  {
    assert (paths + [p])[..|paths + [p]| - 1] == paths;
  }

  /** The load is the empty array when nothing is usable, and otherwise fails exactly when the widths differ. */
  lemma LoadedOrMismatched(process: string -> Option<Matrix>, walk: seq<WalkEntry>)
    ensures UsableFeatures(process, WalkWavPaths(walk)) == [] ==> DirectoryFeatures(process, walk) == Ok([])
    ensures UsableFeatures(process, WalkWavPaths(walk)) != [] ==>
      (DirectoryFeatures(process, walk).Ok? <==> VStack(UsableFeatures(process, WalkWavPaths(walk))).Some?)
  {
    if WalkWavPaths(walk) == [] {
      assert UsableFeatures(process, WalkWavPaths(walk)) == [];
    }
  }

  /** A successful load of usable features holds all their rows, block after block, in order. */
  lemma LoadedRows(process: string -> Option<Matrix>, walk: seq<WalkEntry>)
    requires UsableFeatures(process, WalkWavPaths(walk)) != [] && DirectoryFeatures(process, walk).Ok?
    ensures var kept := UsableFeatures(process, WalkWavPaths(walk));
      var r := DirectoryFeatures(process, walk).value;
      |r| == TotalRows(kept) && HasElements(r)
      && forall k :: 0 <= k < |kept| ==>
           var start := TotalRows(kept[..k]);
           start + |kept[k]| <= |r| && r[start..start + |kept[k]|] == kept[k]
  {
    var kept := UsableFeatures(process, WalkWavPaths(walk));
    assert WalkWavPaths(walk) != [];
    var r := DirectoryFeatures(process, walk).value;
    assert VStack(kept) == Some(r);
    assert HasElements(r) by {
      UsableFeaturesExact(process, WalkWavPaths(walk));
      assert TotalRows(kept[..0]) == 0;
      assert r[0..|kept[0]|] == kept[0];
      assert HasElements(kept[0]);
      assert r[0] == kept[0][0];
    }
  }

  // ---------------------------------------------------------------- pooling the corpora

  /** How the training script ends before the fit: a pooled matrix, exit code 1, or an exception. */
  datatype PoolOutcome = Pooled(features: Matrix) | NoFeaturesLoaded | Crashed(msg: string)

  /**
   * The result matrices the script keeps, directory by directory; the first exception aborts.
   * At most one matrix per directory is kept, and the only exception is a width mismatch
   * inside one directory.
   */
  function Contributions(present: string -> bool, walkOf: string -> seq<WalkEntry>,
                         process: string -> Option<Matrix>, directories: seq<string>): (r: Result<seq<Matrix>>)
    ensures r.Ok? ==> |r.value| <= |directories|
    ensures r.Err? ==> r.msg == WidthMismatch
  {
    if |directories| == 0 then Ok([])
    else
      var before := Contributions(present, walkOf, process, directories[..|directories| - 1]);
      var d := directories[|directories| - 1];
      if before.Err? || !present(d) then before
      else
        var loaded := DirectoryFeatures(process, walkOf(d));
        if loaded.Err? then Err(loaded.msg)
        else if HasElements(loaded.value) then Ok(before.value + [loaded.value])
        else before
  }

  /**
   * The end of the pooling: exit 1 with nothing kept, otherwise the stack of what was kept,
   * holding all their rows.
   */
  function PoolFrom(contributions: Result<seq<Matrix>>): (outcome: PoolOutcome)
    ensures outcome == NoFeaturesLoaded <==> contributions == Ok([])
    ensures outcome.Pooled? ==> contributions.Ok? && |outcome.features| == TotalRows(contributions.value)
  {
    if contributions.Err? then Crashed(contributions.msg)
    else if |contributions.value| == 0 then NoFeaturesLoaded
    else
      match VStack(contributions.value)
      case None => Crashed(WidthMismatch)
      case Some(m) => Pooled(m)
  }

  /** The `__main__` loop over the data directories, up to the pooled matrix. */
  method PoolCorpus(present: string -> bool, walkOf: string -> seq<WalkEntry>,
                    process: string -> Option<Matrix>, directories: seq<string>) returns (outcome: PoolOutcome)
    ensures outcome == PoolFrom(Contributions(present, walkOf, process, directories))
  {
    var allFeatures: seq<Matrix> := [];
    for i := 0 to |directories|
      invariant Contributions(present, walkOf, process, directories[..i]) == Ok(allFeatures)
    {
      assert directories[..i + 1][..i] == directories[..i];
      var directory := directories[i];
      if present(directory) {
        var features := LoadFeaturesFromDirectory(process, walkOf(directory));
        if features.Err? {
          PropagatesCrash(present, walkOf, process, directories, i + 1);
          assert directories[..|directories|] == directories;
          return Crashed(features.msg);
        }
        if HasElements(features.value) {
          allFeatures := allFeatures + [features.value];
        }
      }
    }
    assert directories[..|directories|] == directories;
    if |allFeatures| == 0 {
      return NoFeaturesLoaded;
    }
    var pooled := VStack(allFeatures);
    if pooled.None? {
      return Crashed(WidthMismatch);
    }
    return Pooled(pooled.value);
  }

  /** Once a directory raises, later directories do not change the outcome. */
  lemma {:induction false} PropagatesCrash(present: string -> bool, walkOf: string -> seq<WalkEntry>,
                                           process: string -> Option<Matrix>, directories: seq<string>, n: nat)
    requires n <= |directories| && Contributions(present, walkOf, process, directories[..n]).Err?
    ensures Contributions(present, walkOf, process, directories) == Contributions(present, walkOf, process, directories[..n])
    decreases |directories| - n
  {
    if n < |directories| {
      assert directories[..n + 1][..n] == directories[..n];
      PropagatesCrash(present, walkOf, process, directories, n + 1);
    } else {
      assert directories[..n] == directories;
    }
  }

  /** A directory contributes when it exists and yields a matrix with elements. */
  predicate Contributes(present: string -> bool, walkOf: string -> seq<WalkEntry>,
                        process: string -> Option<Matrix>, d: string) {
    present(d) && DirectoryFeatures(process, walkOf(d)).Ok? && HasElements(DirectoryFeatures(process, walkOf(d)).value)
  }

  /** A directory that exists loads without raising. */
  predicate LoadsCleanly(present: string -> bool, walkOf: string -> seq<WalkEntry>,
                         process: string -> Option<Matrix>, d: string) {
    !present(d) || DirectoryFeatures(process, walkOf(d)).Ok?
  }

  /**
   * When no directory raises, the script stops with exit code 1 exactly when no directory
   * contributes: each is missing or yields an empty result.
   */
  lemma {:induction false} NothingToPool(present: string -> bool, walkOf: string -> seq<WalkEntry>,
                                         process: string -> Option<Matrix>, directories: seq<string>)
    requires forall i :: 0 <= i < |directories| ==> LoadsCleanly(present, walkOf, process, directories[i])
    ensures Contributions(present, walkOf, process, directories).Ok?
    ensures PoolFrom(Contributions(present, walkOf, process, directories)) == NoFeaturesLoaded
        <==> forall i :: 0 <= i < |directories| ==> !Contributes(present, walkOf, process, directories[i])
  {
    if |directories| > 0 {
      var init := directories[..|directories| - 1];
      var d := directories[|directories| - 1];
      assert forall i :: 0 <= i < |init| ==> init[i] == directories[i];
      NothingToPool(present, walkOf, process, init);
      var before := Contributions(present, walkOf, process, init);
      var after := Contributions(present, walkOf, process, directories);
      assert LoadsCleanly(present, walkOf, process, d);
      if Contributes(present, walkOf, process, d) {
        assert after.Ok? && |after.value| == |before.value| + 1;
      } else {
        assert after == before;
      }
    }
  }

  /** Every pooled block has elements and is the matrix of a contributing directory. */
  lemma {:induction false} PooledFromContributors(present: string -> bool, walkOf: string -> seq<WalkEntry>,
                                         process: string -> Option<Matrix>, directories: seq<string>)
    requires Contributions(present, walkOf, process, directories).Ok?
    ensures var kept := Contributions(present, walkOf, process, directories).value;
      forall k :: 0 <= k < |kept| ==>
        (HasElements(kept[k])
         && exists i :: 0 <= i < |directories| && Contributes(present, walkOf, process, directories[i])
              && kept[k] == DirectoryFeatures(process, walkOf(directories[i])).value)
  {
    if |directories| > 0 {
      var init := directories[..|directories| - 1];
      var d := directories[|directories| - 1];
      assert forall i :: 0 <= i < |init| ==> init[i] == directories[i];
      assert Contributions(present, walkOf, process, init).Ok?;
      PooledFromContributors(present, walkOf, process, init);
      var before := Contributions(present, walkOf, process, init).value;
      var kept := Contributions(present, walkOf, process, directories).value;
      if Contributes(present, walkOf, process, d) {
        assert kept == before + [DirectoryFeatures(process, walkOf(d)).value];
        assert Contributes(present, walkOf, process, directories[|directories| - 1]);
      } else {
        assert kept == before;
      }
    }
  }

  /**
   * An independent reading of the `__main__` loop: the matrices of the contributing
   * directories, taken from the front of the list.
   */
  function ContributingFeatures(present: string -> bool, walkOf: string -> seq<WalkEntry>,
                                process: string -> Option<Matrix>, directories: seq<string>): seq<Matrix>
    decreases |directories|
  {
    if |directories| == 0 then []
    else
      var d := directories[0];
      (if Contributes(present, walkOf, process, d) then [DirectoryFeatures(process, walkOf(d)).value] else [])
      + ContributingFeatures(present, walkOf, process, directories[1..])
  }

  /** Appending one directory to the list appends its matrix when it contributes. */
  lemma {:induction false} ContributingAppend(present: string -> bool, walkOf: string -> seq<WalkEntry>,
                                              process: string -> Option<Matrix>, directories: seq<string>, d: string)
    ensures ContributingFeatures(present, walkOf, process, directories + [d])
      == ContributingFeatures(present, walkOf, process, directories)
         + (if Contributes(present, walkOf, process, d) then [DirectoryFeatures(process, walkOf(d)).value] else [])
    decreases |directories|
  {
    if |directories| == 0 {
      assert ([] + [d])[1..] == [];
    } else {
      assert (directories + [d])[1..] == directories[1..] + [d];
      ContributingAppend(present, walkOf, process, directories[1..], d);
    }
  }

  /**
   * When no directory raises, the pooled list is exactly the matrices of the contributing
   * directories, each once, in list order.
   */
  lemma {:induction false} PooledInListOrder(present: string -> bool, walkOf: string -> seq<WalkEntry>,
                                             process: string -> Option<Matrix>, directories: seq<string>)
    requires Contributions(present, walkOf, process, directories).Ok?
    ensures Contributions(present, walkOf, process, directories).value
      == ContributingFeatures(present, walkOf, process, directories)
  {
    if |directories| > 0 {
      var init := directories[..|directories| - 1];
      var d := directories[|directories| - 1];
      assert Contributions(present, walkOf, process, init).Ok?;
      PooledInListOrder(present, walkOf, process, init);
      ContributingAppend(present, walkOf, process, init, d);
      assert init + [d] == directories;
    }
  }
}

/**
 * `voiceauth/voice_verifier.py`: the `VoiceVerifier` object. It caches each enrolled speaker's
 * embedding and threshold, persists both under `voiceauth/model`, and decides a verification
 * attempt from a fresh test sample.
 *
 * The directory listing, audio loading, the speaker model and the square root are parameters
 * (`Env`); the files under `voiceauth/model` are a `FileStore` mapping each path to what it holds.
 */
module Verifier {
  import opened Common
  import Vad
  import SpeakerModel

  /** The sampling rate handed to `detect_speech`. */
  const SampleRate: nat := 16000
  const ModelDirectory: string := "voiceauth/model"
  const NotEnrolled: string := "Speaker not enrolled"
  const NoSpeech: string := "No speech detected"
  /** What `str(e)` reads for `.numpy()` on the array `load_audio` returns. */
  const NoNumpyAttribute: string := "'numpy.ndarray' object has no attribute 'numpy'"
  /** What `torch.load` raises on a file that is not a saved tensor. */
  const NotATensor: string := "invalid load key"
  /** What `json.load` raises on a file that is not JSON. */
  const NotJson: string := "Expecting value: line 1 column 1 (char 0)"
  /** The `KeyError` of `json.load(f)['threshold']` without that key. */
  const MissingThreshold: string := "'threshold'"

  /** The calls the verifier makes into code outside the model. */
  datatype Env = Env(
    listDir: string -> Result<seq<string>>,      // os.listdir
    loadAudio: string -> Result<seq<real>>,      // load_audio: a mono 1-D signal at 16 kHz
    model: SpeakerModel.Model,                   // encoder and similarity
    sqrt: real -> real)                          // the square root inside np.std

  // ---------------------------------------------------------------- paths

  /** `os.path.join('voiceauth', 'model', f'{username}_threshold.json')`. */
  function ThresholdPath(username: string): (p: string)
    ensures EndsWith(p, "_threshold.json")
  {
    var name := username + "_threshold.json";
    assert name[|username|..] == "_threshold.json";
    JoinKeepsSuffix(ModelDirectory, name, "_threshold.json");
    Join(ModelDirectory, name)
  }

  /** `os.path.join('voiceauth', 'model', f'{username}_embedding.pt')`. */
  function EmbeddingPath(username: string): (p: string)
    ensures EndsWith(p, "_embedding.pt")
  {
    var name := username + "_embedding.pt";
    assert name[|username|..] == "_embedding.pt";
    JoinKeepsSuffix(ModelDirectory, name, "_embedding.pt");
    Join(ModelDirectory, name)
  }

  /** The model directory is `os.path.join('voiceauth', 'model')`. */
  lemma ModelDirectoryJoined()
    ensures Join("voiceauth", "model") == ModelDirectory
  {
  }

  /** A speaker's two files never share a path, whatever the username. */
  lemma {:induction false} PathsDiffer(username: string)
    ensures EmbeddingPath(username) != ThresholdPath(username)
  {
    var e, t := username + "_embedding.pt", username + "_threshold.json";
    JoinLast(ModelDirectory, e);
    JoinLast(ModelDirectory, t);
    assert e[|e| - 1] == 't' && t[|t| - 1] == 'n';
  }

  // ---------------------------------------------------------------- speech

  /** `detect_speech(samples, 16000)` frames audio in runs of 320 samples. */
  lemma VadFrameSize()
    ensures Vad.FrameSizeFor(SampleRate) == 320
  {
  }

  /**
   * The speech kept by `detect_speech(waveform, 16000)` from the file at `path`: a load
   * failure passes through, and the speech is never longer than the loaded signal.
   */
  function Speech(env: Env, path: string): (r: Result<seq<real>>)
    ensures env.loadAudio(path).Err? ==> r == Err(env.loadAudio(path).msg)
    ensures r.Ok? ==> env.loadAudio(path).Ok? && |r.value| <= |env.loadAudio(path).value|
  {
    match env.loadAudio(path)
    case Err(e) => Err(e)
    case Ok(samples) =>
      var r := Vad.DetectSpeech(samples, Vad.FrameSizeFor(SampleRate), Vad.DefaultMinSpeechEnergy);
      if r.Ok? then
        Vad.OutputLength(samples, Vad.FrameSizeFor(SampleRate), Vad.DefaultMinSpeechEnergy);
        r
      else r
  }

  /** As written: `waveform.numpy()[0]` on a loaded numpy array raises before any detection. */
  function AsWrittenSpeech(env: Env, path: string): (r: Result<seq<real>>)
    ensures r.Err?
    ensures env.loadAudio(path).Ok? ==> r == Err(NoNumpyAttribute)
  {
    match env.loadAudio(path)
    case Err(e) => Err(e)
    case Ok(_) => Err(NoNumpyAttribute)
  }

  /** Which of the two readings of lines 42 and 101 a computation follows. */
  datatype Wiring = AsWritten | Intended

  /** The waveform's speech under either reading; only the intended one can succeed. */
  function ReadSpeech(wiring: Wiring, env: Env, path: string): (r: Result<seq<real>>)
    ensures wiring == Intended ==> r == Speech(env, path)
    ensures r.Ok? ==> wiring == Intended
  {
    match wiring
    case AsWritten => AsWrittenSpeech(env, path)
    case Intended => Speech(env, path)
  }

  /** Detected speech is never empty: it holds at least one whole 320-sample frame. */
  lemma SpeechIsNeverEmpty(env: Env, path: string)
    requires Speech(env, path).Ok?
    ensures |Speech(env, path).value| >= 320
  {
    Vad.OutputLength(env.loadAudio(path).value, Vad.FrameSizeFor(SampleRate), Vad.DefaultMinSpeechEnergy);
  }

  /** As written, no file ever yields speech. */
  lemma AsWrittenSpeechFails(env: Env, path: string)
    ensures ReadSpeech(AsWritten, env, path).Err?
    ensures env.loadAudio(path).Ok? ==> ReadSpeech(AsWritten, env, path) == Err(NoNumpyAttribute)
  {
  }

  /**
   * `speech_signal.unsqueeze(0)`: one channel of samples, shape `[1, T]`. `preprocess_audio`
   * brings it to the same `[1, 1, T]` as the 1-D signal itself.
   */
  function Unsqueeze(s: seq<real>): (a: SpeakerModel.Array)
    ensures a.Rank2? && a.rows == [s]
    ensures SpeakerModel.Shape(a) == [1, |s|]
    ensures SpeakerModel.PreprocessAudio(a) == SpeakerModel.PreprocessAudio(SpeakerModel.Rank1(s))
  {
    var m: seq<seq<real>> := [s];
    assert Rectangular(m);
    SpeakerModel.Rank2(m)
  }

  /** The unsqueezed speech is embedded exactly as the 1-D speech would be. */
  lemma UnsqueezedEmbedding(model: SpeakerModel.Model, s: seq<real>)
    ensures SpeakerModel.GetEmbedding(model, Unsqueeze(s)) == SpeakerModel.GetEmbedding(model, SpeakerModel.Rank1(s))
    ensures SpeakerModel.GetEmbedding(model, Unsqueeze(s)) == model.encodeBatch(SpeakerModel.Rank3([[s]]))
  {
  }

  // ---------------------------------------------------------------- enrollment

  /**
   * The enrollment samples: for each `.wav` entry in listing order, the unsqueezed speech of
   * that file when it is non-empty. The first failing file aborts the whole enrollment.
   */
  function Samples(wiring: Wiring, env: Env, directory: string, names: seq<string>): (r: Result<seq<SpeakerModel.Array>>)
    ensures r.Ok? ==> |r.value| <= |WavNames(names)|
  {
    if |names| == 0 then Ok([])
    else
      var before := Samples(wiring, env, directory, names[..|names| - 1]);
      var name := names[|names| - 1];
      if before.Err? || !EndsWith(name, ".wav") then before
      else
        match ReadSpeech(wiring, env, Join(directory, name))
        case Err(e) => Err(e)
        case Ok(s) => if |s| > 0 then Ok(before.value + [Unsqueeze(s)]) else before
  }

  /** Every `.wav` entry of `names` yields speech. */
  predicate EveryWavReads(wiring: Wiring, env: Env, directory: string, names: seq<string>) {
    forall k :: 0 <= k < |WavNames(names)| ==> ReadSpeech(wiring, env, Join(directory, WavNames(names)[k])).Ok?
  }

  /**
   * When no file yields empty speech, the samples succeed exactly when every `.wav` entry
   * yields speech, and they are then one per `.wav` entry, in listing order.
   */
  lemma {:induction false} SamplesExact(wiring: Wiring, env: Env, directory: string, names: seq<string>)
    requires forall p :: ReadSpeech(wiring, env, p).Ok? ==> |ReadSpeech(wiring, env, p).value| > 0
    ensures Samples(wiring, env, directory, names).Ok?
      <==> EveryWavReads(wiring, env, directory, names)
    ensures Samples(wiring, env, directory, names).Ok? ==>
      |Samples(wiring, env, directory, names).value| == |WavNames(names)|
    ensures Samples(wiring, env, directory, names).Ok? ==>
      forall k :: 0 <= k < |WavNames(names)| ==>
        Samples(wiring, env, directory, names).value[k] == Unsqueeze(ReadSpeech(wiring, env, Join(directory, WavNames(names)[k])).value)
  {
    if Samples(wiring, env, directory, names).Ok? {
      SamplesReadEveryWav(wiring, env, directory, names);
    }
    if EveryWavReads(wiring, env, directory, names) {
      SamplesWhenEveryWavReads(wiring, env, directory, names);
    }
  }

  /** When every `.wav` entry yields non-empty speech, the samples are that speech, one per entry, in order. */
  lemma {:induction false} SamplesWhenEveryWavReads(wiring: Wiring, env: Env, directory: string, names: seq<string>)
    requires forall p :: ReadSpeech(wiring, env, p).Ok? ==> |ReadSpeech(wiring, env, p).value| > 0
    requires EveryWavReads(wiring, env, directory, names)
    ensures Samples(wiring, env, directory, names).Ok?
    ensures |Samples(wiring, env, directory, names).value| == |WavNames(names)|
    ensures forall k :: 0 <= k < |WavNames(names)| ==>
      Samples(wiring, env, directory, names).value[k] == Unsqueeze(ReadSpeech(wiring, env, Join(directory, WavNames(names)[k])).value)
  {
    if |names| > 0 {
      var init := names[..|names| - 1];
      var name := names[|names| - 1];
      var wavs0 := WavNames(init);
      var wavs := WavNames(names);
      if EndsWith(name, ".wav") {
        assert wavs == wavs0 + [name];
        assert forall k :: 0 <= k < |wavs0| ==> wavs[k] == wavs0[k];
        SamplesWhenEveryWavReads(wiring, env, directory, init);
        var read := ReadSpeech(wiring, env, Join(directory, wavs[|wavs0|]));
        assert Samples(wiring, env, directory, names)
          == Ok(Samples(wiring, env, directory, init).value + [Unsqueeze(read.value)]);
      } else {
        assert wavs == wavs0;
        SamplesWhenEveryWavReads(wiring, env, directory, init);
      }
    }
  }

  /** Samples come back only when every `.wav` entry yields speech, with or without empty reads. */
  lemma {:induction false} SamplesReadEveryWav(wiring: Wiring, env: Env, directory: string, names: seq<string>)
    requires Samples(wiring, env, directory, names).Ok?
    ensures EveryWavReads(wiring, env, directory, names)
  {
    if |names| > 0 {
      var init := names[..|names| - 1];
      var name := names[|names| - 1];
      SamplesReadEveryWav(wiring, env, directory, init);
      var wavs0 := WavNames(init);
      var wavs := WavNames(names);
      if EndsWith(name, ".wav") {
        assert wavs == wavs0 + [name];
        assert forall k :: 0 <= k < |wavs0| ==> wavs[k] == wavs0[k];
      } else {
        assert wavs == wavs0;
      }
    }
  }

  /** After a failing file, the later entries do not change the outcome. */
  lemma {:induction false} SamplesFailurePersists(wiring: Wiring, env: Env, directory: string, names: seq<string>, n: nat)
    requires n <= |names| && Samples(wiring, env, directory, names[..n]).Err?
    ensures Samples(wiring, env, directory, names) == Samples(wiring, env, directory, names[..n])
    decreases |names| - n
  {
    if n < |names| {
      assert names[..n + 1][..n] == names[..n];
      SamplesFailurePersists(wiring, env, directory, names, n + 1);
    } else {
      assert names[..n] == names;
    }
  }

  /** `verify_speaker(emb1, emb2)` at its default threshold, keeping only the similarity. */
  function PairSimilarity(model: SpeakerModel.Model, a: seq<real>, b: seq<real>): (r: Result<real>)
    ensures r == model.similarity(a, b)
  {
    match SpeakerModel.VerifySpeaker(model, a, b, Finite(SpeakerModel.DefaultThreshold))
    case Err(e) => Err(e)
    case Ok(verdict) => Ok(verdict.1)
  }

  /** The inner loop for sample `i`: its similarity to each other sample among the first `n`. */
  function RowSimilarities(model: SpeakerModel.Model, embeddings: seq<seq<real>>, i: nat, n: nat): (r: Result<seq<real>>)
    requires i < |embeddings| && n <= |embeddings|
    ensures r.Ok? ==> |r.value| == (if i < n then n - 1 else n)
  {
    if n == 0 then Ok([])
    else
      var before := RowSimilarities(model, embeddings, i, n - 1);
      if before.Err? || n - 1 == i then before
      else
        match PairSimilarity(model, embeddings[i], embeddings[n - 1])
        case Err(e) => Err(e)
        case Ok(s) => Ok(before.value + [s])
  }

  /** The outer loop over the first `m` samples: their rows, one after the other. */
  function CrossSimilarities(model: SpeakerModel.Model, embeddings: seq<seq<real>>, m: nat): (r: Result<seq<real>>)
    requires m <= |embeddings|
    ensures r.Ok? ==> forall i :: 0 <= i < m ==> RowSimilarities(model, embeddings, i, |embeddings|).Ok?
  {
    if m == 0 then Ok([])
    else Chain(CrossSimilarities(model, embeddings, m - 1), RowSimilarities(model, embeddings, m - 1, |embeddings|))
  }

  /** The `k`-th entry of row `i` compares sample `i` with sample `Partner(i, k)`. */
  function Partner(i: nat, k: nat): nat {
    if k < i then k else k + 1
  }

  /**
   * A row succeeds exactly when every comparison in it does; it then has one entry per other
   * sample, in index order.
   */
  lemma {:induction false} RowExact(model: SpeakerModel.Model, embeddings: seq<seq<real>>, i: nat, n: nat)
    requires i < |embeddings| && n <= |embeddings|
    ensures RowSimilarities(model, embeddings, i, n).Ok?
      <==> forall j :: 0 <= j < n && j != i ==> PairSimilarity(model, embeddings[i], embeddings[j]).Ok?
    ensures RowSimilarities(model, embeddings, i, n).Ok? ==>
      |RowSimilarities(model, embeddings, i, n).value| == (if i < n then n - 1 else n)
    ensures RowSimilarities(model, embeddings, i, n).Ok? ==>
      forall k :: 0 <= k < |RowSimilarities(model, embeddings, i, n).value| ==>
        Partner(i, k) < n
        && RowSimilarities(model, embeddings, i, n).value[k] == PairSimilarity(model, embeddings[i], embeddings[Partner(i, k)]).value
  {
    if n > 0 {
      RowExact(model, embeddings, i, n - 1);
    }
  }

  /** After a failing comparison, the rest of the row does not change the outcome. */
  lemma {:induction false} RowFailurePersists(model: SpeakerModel.Model, embeddings: seq<seq<real>>, i: nat, j: nat, n: nat)
    requires i < |embeddings| && j <= n <= |embeddings| && RowSimilarities(model, embeddings, i, j).Err?
    ensures RowSimilarities(model, embeddings, i, n) == RowSimilarities(model, embeddings, i, j)
    decreases n - j
  {
    if j < n {
      RowFailurePersists(model, embeddings, i, j + 1, n);
    }
  }

  /** After a failing row, the later rows do not change the outcome. */
  lemma {:induction false} CrossFailurePersists(model: SpeakerModel.Model, embeddings: seq<seq<real>>, m: nat, n: nat)
    requires m <= n <= |embeddings| && CrossSimilarities(model, embeddings, m).Err?
    ensures CrossSimilarities(model, embeddings, n) == CrossSimilarities(model, embeddings, m)
    decreases n - m
  {
    if m < n {
      CrossFailurePersists(model, embeddings, m + 1, n);
    }
  }

  /** One step of the inner loop: skip the sample itself, append a similarity, or fail for good. */
  lemma RowStep(model: SpeakerModel.Model, embeddings: seq<seq<real>>, i: nat, j: nat, similarities: seq<real>)
    requires i < |embeddings| && j < |embeddings|
    requires Chain(CrossSimilarities(model, embeddings, i), RowSimilarities(model, embeddings, i, j)) == Ok(similarities)
    ensures i == j ==>
      Chain(CrossSimilarities(model, embeddings, i), RowSimilarities(model, embeddings, i, j + 1)) == Ok(similarities)
    ensures i != j && PairSimilarity(model, embeddings[i], embeddings[j]).Ok? ==>
      Chain(CrossSimilarities(model, embeddings, i), RowSimilarities(model, embeddings, i, j + 1))
        == Ok(similarities + [PairSimilarity(model, embeddings[i], embeddings[j]).value])
    ensures i != j && PairSimilarity(model, embeddings[i], embeddings[j]).Err? ==>
      CrossSimilarities(model, embeddings, |embeddings|) == Err(PairSimilarity(model, embeddings[i], embeddings[j]).msg)
  {
    var before := CrossSimilarities(model, embeddings, i).value;
    var row := RowSimilarities(model, embeddings, i, j).value;
    var sim := PairSimilarity(model, embeddings[i], embeddings[j]);
    if i != j {
      if sim.Ok? {
        assert before + (row + [sim.value]) == (before + row) + [sim.value];
      } else {
        RowFailurePersists(model, embeddings, i, j + 1, |embeddings|);
        CrossFailurePersists(model, embeddings, i + 1, |embeddings|);
      }
    }
  }

  /** The first `m` rows hold `m * (N - 1)` similarities for `N` samples. */
  lemma {:induction false} CrossCount(model: SpeakerModel.Model, embeddings: seq<seq<real>>, m: nat)
    requires 0 < |embeddings| && m <= |embeddings| && CrossSimilarities(model, embeddings, m).Ok?
    ensures |CrossSimilarities(model, embeddings, m).value| == m * (|embeddings| - 1)
  {
    if m > 0 {
      var n := |embeddings|;
      CrossCount(model, embeddings, m - 1);
      RowExact(model, embeddings, m - 1, n);
      assert m * (n - 1) == (m - 1) * (n - 1) + (n - 1);
    }
  }

  /**
   * The first `m` rows succeed exactly when every comparison of one of those samples with
   * another does, and then each such comparison is among the similarities.
   */
  lemma {:induction false} CrossSucceedsIff(model: SpeakerModel.Model, embeddings: seq<seq<real>>, m: nat)
    requires m <= |embeddings|
    ensures CrossSimilarities(model, embeddings, m).Ok?
      <==> forall i, j :: 0 <= i < m && 0 <= j < |embeddings| && i != j ==> PairSimilarity(model, embeddings[i], embeddings[j]).Ok?
  {
    if m > 0 {
      CrossSucceedsIff(model, embeddings, m - 1);
      RowExact(model, embeddings, m - 1, |embeddings|);
    }
  }

  /** Every comparison of one of the first `m` samples with another is among their similarities. */
  lemma {:induction false} CrossHoldsEveryPair(model: SpeakerModel.Model, embeddings: seq<seq<real>>, m: nat)
    requires m <= |embeddings| && CrossSimilarities(model, embeddings, m).Ok?
    ensures forall i, j :: 0 <= i < m && 0 <= j < |embeddings| && i != j ==>
      PairSimilarity(model, embeddings[i], embeddings[j]).Ok?
      && PairSimilarity(model, embeddings[i], embeddings[j]).value in CrossSimilarities(model, embeddings, m).value
  {
    if m > 0 {
      var n := |embeddings|;
      var i := m - 1;
      CrossHoldsEveryPair(model, embeddings, m - 1);
      CrossSucceedsIff(model, embeddings, m);
      RowExact(model, embeddings, i, n);
      var before := CrossSimilarities(model, embeddings, m - 1).value;
      var row := RowSimilarities(model, embeddings, i, n).value;
      assert CrossSimilarities(model, embeddings, m).value == before + row;
      forall j | 0 <= j < n && j != i
        ensures PairSimilarity(model, embeddings[i], embeddings[j]).value in row
      {
        var k := if j < i then j else j - 1;
        assert Partner(i, k) == j;
        assert row[k] == PairSimilarity(model, embeddings[i], embeddings[j]).value;
      }
    }
  }

  /** `float(np.mean(similarities) - np.std(similarities))`: NaN for no similarities. */
  function EnrollmentThreshold(similarities: seq<real>, sqrt: real -> real): (t: Float)
    ensures t.NaN? <==> |similarities| == 0
  {
    if |similarities| == 0 then NaN
    else Finite(Mean(similarities) - sqrt(Variance(similarities)))
  }

  /** With a non-negative square root the threshold is at most the mean similarity. */
  lemma ThresholdBelowMean(similarities: seq<real>, sqrt: real -> real)
    requires |similarities| > 0 && sqrt(Variance(similarities)) >= 0.0
    ensures EnrollmentThreshold(similarities, sqrt).Finite?
    ensures EnrollmentThreshold(similarities, sqrt).v <= Mean(similarities)
  {
  }

  /** Identical similarities have no spread: the threshold is that similarity. */
  lemma UniformSimilarities(similarities: seq<real>, sqrt: real -> real)
    requires |similarities| > 0 && forall k :: 0 <= k < |similarities| ==> similarities[k] == similarities[0]
    requires sqrt(0.0) == 0.0
    ensures EnrollmentThreshold(similarities, sqrt) == Finite(similarities[0])
  {
    ConstantVarianceZero(similarities);
    ConstantSum(similarities);
  }

  /** What `enroll_speaker` achieves: nothing, the embedding only, or embedding and threshold. */
  datatype Enrollment =
    | Rejected
    | EmbeddingOnly(embedding: seq<real>)
    | Enrolled(embedding: seq<real>, threshold: Float)

  /**
   * `enroll_speaker(username, audio_directory)` read with the given wiring (lines 33-80).
   * Nothing is enrolled unless the listing succeeds, has a `.wav` entry, and every `.wav`
   * file yields speech.
   */
  function EnrollmentVia(wiring: Wiring, env: Env, directory: string): (r: Enrollment)
    ensures !r.Rejected? ==>
      env.listDir(directory).Ok? && |WavNames(env.listDir(directory).value)| > 0
      && forall k :: 0 <= k < |WavNames(env.listDir(directory).value)| ==>
           ReadSpeech(wiring, env, Join(directory, WavNames(env.listDir(directory).value)[k])).Ok?
  {
    match env.listDir(directory)
    case Err(_) => Rejected
    case Ok(names) =>
      match Samples(wiring, env, directory, names)
      case Err(_) => Rejected
      case Ok(waveforms) =>
        if |waveforms| == 0 then Rejected
        else
          SamplesReadEveryWav(wiring, env, directory, names);
          match SpeakerModel.EmbedAll(env.model, waveforms)
          case Err(_) => Rejected
          case Ok(embeddings) =>
            match SpeakerModel.MeanEmbedding(embeddings)
            case Err(_) => Rejected
            case Ok(e) =>
              match CrossSimilarities(env.model, embeddings, |embeddings|)
              case Err(_) => EmbeddingOnly(e)
              case Ok(similarities) => Enrolled(e, EnrollmentThreshold(similarities, env.sqrt))
  }

  /** Enrollment as evidently intended, with the loaded signal handed to `detect_speech`. */
  function EnrollmentOf(env: Env, directory: string): (r: Enrollment)
    ensures !r.Rejected? ==>
      env.listDir(directory).Ok?
      && forall name :: name in WavNames(env.listDir(directory).value) ==> Speech(env, Join(directory, name)).Ok?
  {
    EnrollmentVia(Intended, env, directory)
  }

  /** As written, enrollment never succeeds: any `.wav` file raises, and no `.wav` file means no samples. */
  lemma AsWrittenEnrollmentFails(env: Env, directory: string)
    ensures EnrollmentVia(AsWritten, env, directory) == Rejected
  {
    if env.listDir(directory).Ok? {
      var names := env.listDir(directory).value;
      SamplesExact(AsWritten, env, directory, names);
      var r := Samples(AsWritten, env, directory, names);
      if r.Ok? && |WavNames(names)| > 0 {
        AsWrittenSpeechFails(env, Join(directory, WavNames(names)[0]));
      }
    }
  }

  /**
   * As intended, enrollment succeeds when there is a `.wav` entry, every `.wav` file yields
   * speech, the encoder succeeds with one embedding size and every similarity is computed.
   */
  lemma IntendedEnrollmentSucceeds(env: Env, directory: string, size: nat)
    requires env.listDir(directory).Ok? && |WavNames(env.listDir(directory).value)| > 0
    requires forall name :: name in WavNames(env.listDir(directory).value) ==> Speech(env, Join(directory, name)).Ok?
    requires forall a :: env.model.encodeBatch(a).Ok? && |env.model.encodeBatch(a).value| == size
    requires forall a, b :: env.model.similarity(a, b).Ok?
    ensures EnrollmentOf(env, directory).Enrolled?
  {
    var names := env.listDir(directory).value;
    var wavs := WavNames(names);
    assert Samples(Intended, env, directory, names).Ok?
        && |Samples(Intended, env, directory, names).value| == |wavs| by {
      forall p | ReadSpeech(Intended, env, p).Ok? ensures |ReadSpeech(Intended, env, p).value| > 0 {
        SpeechIsNeverEmpty(env, p);
      }
      SamplesExact(Intended, env, directory, names);
      assert forall k :: 0 <= k < |wavs| ==> wavs[k] in wavs;
    }
    var waveforms := Samples(Intended, env, directory, names).value;
    assert SpeakerModel.EmbedAll(env.model, waveforms).Ok? by {
      SpeakerModel.EmbedAllSucceeds(env.model, waveforms);
    }
    var embeddings := SpeakerModel.EmbedAll(env.model, waveforms).value;
    assert |embeddings| > 0 && Rectangular(embeddings) by {
      SpeakerModel.EmbedAllExact(env.model, waveforms);
    }
    CrossSucceedsIff(env.model, embeddings, |embeddings|);
  }

  /** Only `.wav` entries are read: appending another name changes nothing. */
  lemma OtherNamesIgnored(wiring: Wiring, env: Env, directory: string, names: seq<string>, name: string)
    requires !EndsWith(name, ".wav")
    ensures Samples(wiring, env, directory, names + [name]) == Samples(wiring, env, directory, names)
  {
    assert (names + [name])[..|names|] == names;
  }

  /** A directory without `.wav` entries enrolls nobody. */
  lemma NoWavFilesRejected(env: Env, directory: string)
    requires env.listDir(directory).Ok? && |WavNames(env.listDir(directory).value)| == 0
    ensures EnrollmentOf(env, directory) == Rejected
  {
    var names := env.listDir(directory).value;
    forall p | ReadSpeech(Intended, env, p).Ok? ensures |ReadSpeech(Intended, env, p).value| > 0 {
      SpeechIsNeverEmpty(env, p);
    }
    SamplesExact(Intended, env, directory, names);
  }

  /**
   * A speaker enrolled from a single usable sample has no pairs to compare: the threshold is
   * NaN, which no similarity exceeds.
   */
  lemma SingleSampleThresholdIsNaN(env: Env, directory: string)
    requires env.listDir(directory).Ok?
    requires Samples(Intended, env, directory, env.listDir(directory).value).Ok?
    requires |Samples(Intended, env, directory, env.listDir(directory).value).value| == 1
    requires EnrollmentOf(env, directory).Enrolled?
    ensures EnrollmentOf(env, directory).threshold == NaN
  {
    var waveforms := Samples(Intended, env, directory, env.listDir(directory).value).value;
    var embeddings := SpeakerModel.EmbedAll(env.model, waveforms).value;
    CrossCount(env.model, embeddings, 1);
  }

  /** With `N` usable samples the threshold is computed from exactly `N * (N - 1)` similarities. */
  lemma SimilarityCount(model: SpeakerModel.Model, embeddings: seq<seq<real>>)
    requires |embeddings| > 0 && CrossSimilarities(model, embeddings, |embeddings|).Ok?
    ensures |CrossSimilarities(model, embeddings, |embeddings|).value| == |embeddings| * (|embeddings| - 1)
  {
    CrossCount(model, embeddings, |embeddings|);
  }

  // ---------------------------------------------------------------- verification

  /** The response of `verify_speaker`: a decision, or `verified: False` with an error. */
  datatype Verdict =
    | Decided(verified: bool, confidence: real, threshold: Float)
    | Refused(error: string)

  /** `self.thresholds.get(username, 0.7)`. */
  function ThresholdFor(thresholds: map<string, Float>, username: string): (t: Float)
    ensures username in thresholds ==> t == thresholds[username]
    ensures username !in thresholds ==> t == Finite(0.7)
  {
    if username in thresholds then thresholds[username] else Finite(SpeakerModel.DefaultThreshold)
  }

  /**
   * The threshold cached for a speaker is the one that speaker is verified against, and
   * caching it changes no other speaker's threshold.
   */
  lemma StoredThresholdIsUsed(thresholds: map<string, Float>, username: string, t: Float, other: string)
    ensures ThresholdFor(thresholds[username := t], username) == t
    ensures other != username ==> ThresholdFor(thresholds[username := t], other) == ThresholdFor(thresholds, other)
  {
  }

  /** Lines 100-122 read with the given wiring, against a known embedding and threshold. */
  function DecideVia(wiring: Wiring, env: Env, enrolled: seq<real>, threshold: Float, audioPath: string): (v: Verdict)
    ensures ReadSpeech(wiring, env, audioPath).Err? ==> v == Refused(ReadSpeech(wiring, env, audioPath).msg)
    ensures v.Decided? ==>
      v.threshold == threshold && ReadSpeech(wiring, env, audioPath).Ok?
      && (v.verified <==> threshold.Finite? && v.confidence > threshold.v)
  {
    match ReadSpeech(wiring, env, audioPath)
    case Err(e) => Refused(e)
    case Ok(s) =>
      if |s| == 0 then Refused(NoSpeech)
      else
        match SpeakerModel.GetEmbedding(env.model, Unsqueeze(s))
        case Err(e) => Refused(e)
        case Ok(test) =>
          match SpeakerModel.VerifySpeaker(env.model, enrolled, test, threshold)
          case Err(e) => Refused(e)
          case Ok(v) => Decided(v.0, v.1, threshold)
  }

  /** The decision as evidently intended. */
  function Decide(env: Env, enrolled: seq<real>, threshold: Float, audioPath: string): (v: Verdict)
    ensures env.loadAudio(audioPath).Err? ==> v == Refused(env.loadAudio(audioPath).msg)
    ensures v.Decided? ==> env.loadAudio(audioPath).Ok? && Speech(env, audioPath).Ok?
  {
    DecideVia(Intended, env, enrolled, threshold, audioPath)
  }

  /** As written, every verification is refused. */
  lemma AsWrittenVerificationRefuses(env: Env, enrolled: seq<real>, threshold: Float, audioPath: string)
    ensures DecideVia(AsWritten, env, enrolled, threshold, audioPath).Refused?
  {
    AsWrittenSpeechFails(env, audioPath);
  }

  /**
   * A decision reports the similarity of the enrolled embedding to the test sample's and
   * accepts exactly when it exceeds the threshold; the "no speech" refusal never occurs, since
   * detected speech is never empty.
   */
  lemma DecisionIsStrictComparison(env: Env, enrolled: seq<real>, threshold: Float, audioPath: string)
    requires Decide(env, enrolled, threshold, audioPath).Decided?
    ensures Speech(env, audioPath).Ok?
    ensures Decide(env, enrolled, threshold, audioPath).threshold == threshold
    ensures SpeakerModel.GetEmbedding(env.model, Unsqueeze(Speech(env, audioPath).value)).Ok?
    ensures Decide(env, enrolled, threshold, audioPath).confidence
      == env.model.similarity(enrolled, SpeakerModel.GetEmbedding(env.model, Unsqueeze(Speech(env, audioPath).value)).value).value
    ensures Decide(env, enrolled, threshold, audioPath).verified
      <==> GreaterThan(Decide(env, enrolled, threshold, audioPath).confidence, threshold)
  {
  }

  /**
   * A test sample whose speech is detected and embedded, and whose similarity is computed, is
   * decided: the "no speech" refusal of line 104 never occurs.
   */
  lemma DetectedSpeechIsDecided(env: Env, enrolled: seq<real>, threshold: Float, audioPath: string)
    requires Speech(env, audioPath).Ok?
    requires SpeakerModel.GetEmbedding(env.model, Unsqueeze(Speech(env, audioPath).value)).Ok?
    requires env.model.similarity(enrolled, SpeakerModel.GetEmbedding(env.model, Unsqueeze(Speech(env, audioPath).value)).value).Ok?
    ensures Decide(env, enrolled, threshold, audioPath).Decided?
  {
    SpeechIsNeverEmpty(env, audioPath);
  }

  /** A NaN threshold (one enrollment sample) rejects every test sample. */
  lemma NaNThresholdRejects(env: Env, enrolled: seq<real>, audioPath: string)
    requires Decide(env, enrolled, NaN, audioPath).Decided?
    ensures !Decide(env, enrolled, NaN, audioPath).verified
  {
  }

  /** How `verify_speaker` finds the speaker: cached, absent, or loaded from the two files (lines 87-97). */
  datatype Lookup =
    | Cached
    | Missing
    | EmbeddingUnloadable(msg: string)
    | ThresholdUnloadable(embedding: seq<real>, msg: string)
    | Loaded(embedding: seq<real>, threshold: Float)

  function LookupOf(enrolled: map<string, seq<real>>, files: map<string, Artifact>, username: string): (l: Lookup)
    ensures l == Cached <==> username in enrolled
    ensures l == Missing <==> username !in enrolled && !(EmbeddingPath(username) in files && ThresholdPath(username) in files)
    ensures l.Loaded? ==>
      EmbeddingPath(username) in files && files[EmbeddingPath(username)] == TensorFile(l.embedding)
      && ThresholdPath(username) in files && files[ThresholdPath(username)].JsonRecord?
      && "threshold" in files[ThresholdPath(username)].fields
      && files[ThresholdPath(username)].fields["threshold"] == l.threshold
  {
    if username in enrolled then Cached
    else if !(EmbeddingPath(username) in files && ThresholdPath(username) in files) then Missing
    else
      match files[EmbeddingPath(username)]
      case TensorFile(e) =>
        (match files[ThresholdPath(username)]
         case JsonRecord(fields) =>
           if "threshold" in fields then Loaded(e, fields["threshold"]) else ThresholdUnloadable(e, MissingThreshold)
         case _ => ThresholdUnloadable(e, NotJson))
      case _ => EmbeddingUnloadable(NotATensor)
  }

  /** What a completed enrollment writes is read back unchanged by a verifier with an empty cache. */
  lemma PersistedEnrollmentReloads(files: map<string, Artifact>, username: string, e: seq<real>, t: Float)
    ensures LookupOf(map[], files[EmbeddingPath(username) := TensorFile(e)][ThresholdPath(username) := ThresholdRecord(t)], username)
      == Loaded(e, t)
  {
    PathsDiffer(username);
  }

  /** An enrollment that saved its embedding but no threshold leaves the speaker not enrolled on disk. */
  lemma EmbeddingAloneIsNotEnrolled(files: map<string, Artifact>, username: string, e: seq<real>)
    requires ThresholdPath(username) !in files
    ensures LookupOf(map[], files[EmbeddingPath(username) := TensorFile(e)], username) == Missing
  {
    PathsDiffer(username);
  }

  /** The loop of lines 36-44 over the listed names. */
  method CollectSamples(env: Env, directory: string, names: seq<string>) returns (r: Result<seq<SpeakerModel.Array>>)
    ensures r == Samples(Intended, env, directory, names)
  {
    var waveforms: seq<SpeakerModel.Array> := [];
    for k := 0 to |names|
      invariant Samples(Intended, env, directory, names[..k]) == Ok(waveforms)
    {
      assert names[..k + 1][..k] == names[..k];
      var fileName := names[k];
      if EndsWith(fileName, ".wav") {
        var speech := Speech(env, Join(directory, fileName));
        if speech.Err? {
          SamplesFailurePersists(Intended, env, directory, names, k + 1);
          return Err(speech.msg);
        }
        if |speech.value| > 0 {
          waveforms := waveforms + [Unsqueeze(speech.value)];
        }
      }
    }
    assert names[..|names|] == names;
    r := Ok(waveforms);
  }

  /**
   * The nested loops of lines 58-65: each sample's embedding compared with every other's,
   * row by row. The embeddings recomputed there are those enrollment already obtained.
   */
  method CompareSamples(model: SpeakerModel.Model, waveforms: seq<SpeakerModel.Array>, ghost embeddings: seq<seq<real>>)
    returns (r: Result<seq<real>>)
    requires SpeakerModel.EmbedAll(model, waveforms) == Ok(embeddings)
    ensures r == CrossSimilarities(model, embeddings, |embeddings|)
  {
    SpeakerModel.EmbedAllExact(model, waveforms);
    var similarities: seq<real> := [];
    for i := 0 to |waveforms|
      invariant CrossSimilarities(model, embeddings, i) == Ok(similarities)
    {
      var emb1 := SpeakerModel.GetEmbedding(model, waveforms[i]).value;
      assert similarities + [] == similarities;
      for j := 0 to |waveforms|
        invariant Chain(CrossSimilarities(model, embeddings, i), RowSimilarities(model, embeddings, i, j)) == Ok(similarities)
      {
        RowStep(model, embeddings, i, j, similarities);
        if i != j {
          var emb2 := SpeakerModel.GetEmbedding(model, waveforms[j]).value;
          var sim := PairSimilarity(model, emb1, emb2);
          if sim.Err? {
            return Err(sim.msg);
          }
          similarities := similarities + [sim.value];
        }
      }
    }
    r := Ok(similarities);
  }

  // ---------------------------------------------------------------- state

  /** The files under `voiceauth/model`, by path. */
  class FileStore {
    var files: map<string, Artifact>

    constructor (files: map<string, Artifact>)
      ensures this.files == files
    {
      this.files := files;
    }
  }

  class VoiceVerifier {
    var enrolledSpeakers: map<string, seq<real>>
    var thresholds: map<string, Float>

    /** A threshold is only ever cached for a speaker whose embedding is cached. */
    ghost predicate Valid()
      reads this
    {
      thresholds.Keys <= enrolledSpeakers.Keys
    }

    constructor ()
      ensures enrolledSpeakers == map[] && thresholds == map[]
      ensures Valid()
    {
      enrolledSpeakers := map[];
      thresholds := map[];
    }

    /**
     * `enroll_speaker(username, audio_directory)`: true exactly when both the embedding and
     * the threshold were stored. A failure before the embedding changes nothing; a failure
     * while comparing samples leaves the new embedding cached and saved beside any older
     * threshold.
     */
    method EnrollSpeaker(env: Env, store: FileStore, username: string, audioDirectory: string) returns (ok: bool)
      requires Valid()
      modifies this, store
      ensures Valid()
      ensures ok <==> EnrollmentOf(env, audioDirectory).Enrolled?
      ensures match EnrollmentOf(env, audioDirectory)
        case Rejected =>
          enrolledSpeakers == old(enrolledSpeakers) && thresholds == old(thresholds) && store.files == old(store.files)
        case EmbeddingOnly(e) =>
          enrolledSpeakers == old(enrolledSpeakers)[username := e] && thresholds == old(thresholds)
          && store.files == old(store.files)[EmbeddingPath(username) := TensorFile(e)]
        case Enrolled(e, t) =>
          enrolledSpeakers == old(enrolledSpeakers)[username := e] && thresholds == old(thresholds)[username := t]
          && store.files == old(store.files)[EmbeddingPath(username) := TensorFile(e)][ThresholdPath(username) := ThresholdRecord(t)]
    {
      var listing := env.listDir(audioDirectory);
      if listing.Err? {
        return false;
      }
      var samples := CollectSamples(env, audioDirectory, listing.value);
      if samples.Err? || |samples.value| == 0 {
        return false;
      }
      var waveforms := samples.value;
      var embedding := SpeakerModel.EnrollSpeaker(env.model, waveforms);
      if embedding.Err? {
        return false;
      }
      store.files := store.files[EmbeddingPath(username) := TensorFile(embedding.value)];
      enrolledSpeakers := enrolledSpeakers[username := embedding.value];
      var similarities := CompareSamples(env.model, waveforms, SpeakerModel.EmbedAll(env.model, waveforms).value);
      if similarities.Err? {
        return false;
      }
      var threshold := EnrollmentThreshold(similarities.value, env.sqrt);
      thresholds := thresholds[username := threshold];
      store.files := store.files[ThresholdPath(username) := ThresholdRecord(threshold)];
      ok := true;
    }

    /**
     * `verify_speaker(username, audio_path)`: a speaker not cached is loaded from disk first
     * (a half-loaded speaker stays cached), then the test sample is decided against the cached
     * embedding and the cached threshold, 0.7 when none is cached. The files are only read.
     * Valid() makes a refused load leave no threshold behind for the speaker, so a later
     * verification uses 0.7, never a stale threshold.
     */
    method VerifySpeaker(env: Env, store: FileStore, username: string, audioPath: string) returns (r: Verdict)
      requires Valid()
      modifies this
      ensures Valid()
      ensures match LookupOf(old(enrolledSpeakers), store.files, username)
        case Cached =>
          enrolledSpeakers == old(enrolledSpeakers) && thresholds == old(thresholds)
          && r == Decide(env, enrolledSpeakers[username], ThresholdFor(thresholds, username), audioPath)
        case Missing =>
          enrolledSpeakers == old(enrolledSpeakers) && thresholds == old(thresholds) && r == Refused(NotEnrolled)
          && ThresholdFor(thresholds, username) == Finite(SpeakerModel.DefaultThreshold)
        case EmbeddingUnloadable(m) =>
          enrolledSpeakers == old(enrolledSpeakers) && thresholds == old(thresholds) && r == Refused(m)
          && ThresholdFor(thresholds, username) == Finite(SpeakerModel.DefaultThreshold)
        case ThresholdUnloadable(e, m) =>
          enrolledSpeakers == old(enrolledSpeakers)[username := e] && thresholds == old(thresholds) && r == Refused(m)
          && ThresholdFor(thresholds, username) == Finite(SpeakerModel.DefaultThreshold)
        case Loaded(e, t) =>
          enrolledSpeakers == old(enrolledSpeakers)[username := e] && thresholds == old(thresholds)[username := t]
          && r == Decide(env, e, t, audioPath)
    {
      if username !in enrolledSpeakers {
        var embeddingPath := EmbeddingPath(username);
        var thresholdPath := ThresholdPath(username);
        if !(embeddingPath in store.files && thresholdPath in store.files) {
          return Refused(NotEnrolled);
        }
        match store.files[embeddingPath] {
          case TensorFile(e) =>
            enrolledSpeakers := enrolledSpeakers[username := e];
          case _ =>
            return Refused(NotATensor);
        }
        match store.files[thresholdPath] {
          case JsonRecord(fields) =>
            if "threshold" !in fields {
              return Refused(MissingThreshold);
            }
            thresholds := thresholds[username := fields["threshold"]];
          case _ =>
            return Refused(NotJson);
        }
      }
      var speech := Speech(env, audioPath);
      if speech.Err? {
        return Refused(speech.msg);
      }
      if |speech.value| == 0 {
        return Refused(NoSpeech);
      }
      var test := SpeakerModel.GetEmbedding(env.model, Unsqueeze(speech.value));
      if test.Err? {
        return Refused(test.msg);
      }
      var enrolled := enrolledSpeakers[username];
      var threshold := ThresholdFor(thresholds, username);
      var verdict := SpeakerModel.VerifySpeaker(env.model, enrolled, test.value, threshold);
      if verdict.Err? {
        return Refused(verdict.msg);
      }
      r := Decided(verdict.value.0, verdict.value.1, threshold);
    }
  }
}

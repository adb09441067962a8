/**
 * The speaker-embedding front end of `voiceauth/speaker_model.py`: the shape rules that bring
 * a waveform to `[batch, channel, time]`, the thresholded similarity decision, and enrollment
 * as the elementwise mean of per-sample embeddings. The encoder and its similarity score are
 * library calls and enter as functions that may fail.
 */
module SpeakerModel {
  import opened Common

  /** `verify_speaker`'s default threshold. */
  const DefaultThreshold: real := 0.7
  /** torch's messages for stacking no embeddings and embeddings of different sizes. */
  const EmptyStack: string := "stack expects a non-empty TensorList"
  const UnequalStack: string := "stack expects each tensor to be equal size"

  /** An array by rank: a 1-D signal, a channels-by-time matrix, a stack of matrices, or any other rank. */
  datatype Array =
    | Rank1(samples: seq<real>)
    | Rank2(rows: Matrix)
    | Rank3(planes: seq<Matrix>)
    | OtherRank(shape: seq<nat>, values: seq<real>)

  /** The array's `shape`; a matrix without rows reports no columns. */
  function Shape(a: Array): seq<nat> {
    match a
    case Rank1(s) => [|s|]
    case Rank2(m) => [|m|, Cols(m)]
    case Rank3(ps) => if |ps| == 0 then [0, 0, 0] else [|ps|, |ps[0]|, Cols(ps[0])]
    case OtherRank(shape, _) => shape
  }

  /** `waveform.mean(dim=0, keepdim=True)[0]`: each time step averaged over the channels. */
  function ChannelMean(m: Matrix): (avg: seq<real>)
    requires |m| > 0
    ensures |avg| == Cols(m)
    ensures forall t :: 0 <= t < Cols(m) ==> avg[t] == Mean(Column(m, t))
    ensures forall t {:trigger MinOf(Column(m, t))} :: 0 <= t < Cols(m) ==> MinOf(Column(m, t)) <= avg[t]
    ensures forall t {:trigger MaxOf(Column(m, t))} :: 0 <= t < Cols(m) ==> avg[t] <= MaxOf(Column(m, t))
  {
    ColumnMeansWithinRange(m);
    seq(Cols(m), t requires 0 <= t < Cols(m) => Mean(Column(m, t)))
  }

  /** Each column's mean lies between the column's smallest and largest sample. */
  lemma ColumnMeansWithinRange(m: Matrix)
    requires |m| > 0
    ensures forall t :: 0 <= t < Cols(m) ==> MinOf(Column(m, t)) <= Mean(Column(m, t)) <= MaxOf(Column(m, t))
  {
    forall t | 0 <= t < Cols(m) ensures MinOf(Column(m, t)) <= Mean(Column(m, t)) <= MaxOf(Column(m, t)) {
      MeanWithinBounds(Column(m, t), MinOf(Column(m, t)), MaxOf(Column(m, t)));
    }
  }

  /**
   * `preprocess_audio(waveform)`: a 1-D signal and a 2-D array become `[1, channels, time]`,
   * several channels being averaged into one first; other ranks pass unchanged.
   */
  function PreprocessAudio(w: Array): (r: Array)
    ensures r.Rank3? || r == w
  {
    match w
    case Rank1(s) => Rank3([[s]])
    case Rank2(m) =>
      if |m| > 1 then Rank3([[ChannelMean(m)]])
      else Rank3([m])
    case _ => w
  }

  /** A 1-D signal of length T becomes shape `[1, 1, T]`, samples unchanged. */
  lemma MonoSignalShape(s: seq<real>)
    ensures Shape(PreprocessAudio(Rank1(s))) == [1, 1, |s|]
    ensures PreprocessAudio(Rank1(s)).planes[0][0] == s
  {
  }

  /** Several channels become `[1, 1, T]`, each sample the channel average at that time. */
  lemma MultiChannelShape(m: Matrix)
    requires |m| > 1
    ensures Shape(PreprocessAudio(Rank2(m))) == [1, 1, Cols(m)]
    ensures forall t :: 0 <= t < Cols(m) ==> PreprocessAudio(Rank2(m)).planes[0][0][t] == Mean(Column(m, t))
  {
  }

  /** A single channel gains a batch axis only: `[1, T]` becomes `[1, 1, T]`. */
  lemma SingleChannelShape(m: Matrix)
    requires |m| == 1
    ensures Shape(PreprocessAudio(Rank2(m))) == [1, 1, Cols(m)]
    ensures PreprocessAudio(Rank2(m)).planes[0] == m
  {
  }

  /** Identical channels average to that channel. */
  lemma IdenticalChannelsAverage(m: Matrix)
    requires |m| > 1 && forall c :: 0 <= c < |m| ==> m[c] == m[0]
    ensures PreprocessAudio(Rank2(m)).planes[0][0] == m[0]
  {
    forall t | 0 <= t < Cols(m) ensures Mean(Column(m, t)) == m[0][t] {
      ConstantSum(Column(m, t));
    }
  }

  /** Ranks other than 1 and 2 are returned as they are. */
  lemma OtherRanksUnchanged(w: Array)
    requires !w.Rank1? && !w.Rank2?
    ensures PreprocessAudio(w) == w
  {
  }

  /** The two calls to the speaker model: the encoder and the similarity of two embeddings. */
  datatype Model = Model(
    encodeBatch: Array -> Result<seq<real>>,
    similarity: (seq<real>, seq<real>) -> Result<real>)

  /**
   * `get_embedding(waveform)`: preprocess, then encode. A mono signal reaches the encoder as
   * `[1, 1, T]` holding its samples, whether it comes as `[T]` or as one channel `[1, T]`.
   */
  function GetEmbedding(model: Model, w: Array): (r: Result<seq<real>>)
    ensures w.Rank1? ==> r == model.encodeBatch(Rank3([[w.samples]]))
    ensures w.Rank2? && |w.rows| == 1 ==> r == model.encodeBatch(Rank3([[w.rows[0]]]))
  {
    assert w.Rank2? && |w.rows| == 1 ==> w.rows == [w.rows[0]];
    model.encodeBatch(PreprocessAudio(w))
  }

  /**
   * `verify_speaker(enrolled, test, threshold)`: the decision `similarity > threshold`, with the
   * similarity returned unchanged. A NaN threshold never accepts.
   */
  function VerifySpeaker(model: Model, enrolled: seq<real>, test: seq<real>, threshold: Float): (r: Result<(bool, real)>)
    ensures r.Ok? <==> model.similarity(enrolled, test).Ok?
    ensures r.Ok? ==> r.value.1 == model.similarity(enrolled, test).value
    ensures r.Ok? ==> (r.value.0 <==> threshold.Finite? && r.value.1 > threshold.v)
  {
    match model.similarity(enrolled, test)
    case Err(e) => Err(e)
    case Ok(s) => Ok((GreaterThan(s, threshold), s))
  }

  /** Raising the threshold never turns a rejection into an acceptance. */
  lemma StricterThresholdAcceptsLess(model: Model, enrolled: seq<real>, test: seq<real>, low: real, high: real)
    requires low <= high && VerifySpeaker(model, enrolled, test, Finite(high)).Ok?
    ensures VerifySpeaker(model, enrolled, test, Finite(high)).value.0 ==> VerifySpeaker(model, enrolled, test, Finite(low)).value.0
  {
  }

  /** A similarity equal to the threshold is rejected: the comparison is strict. */
  lemma EqualSimilarityRejected(model: Model, enrolled: seq<real>, test: seq<real>)
    requires model.similarity(enrolled, test).Ok?
    ensures !VerifySpeaker(model, enrolled, test, Finite(model.similarity(enrolled, test).value)).value.0
  {
  }

  // ---------------------------------------------------------------- enrollment

  /** One embedding per waveform, in order; the first failure aborts. */
  function EmbedAll(model: Model, waveforms: seq<Array>): (r: Result<seq<seq<real>>>)
    ensures r.Ok? ==> |r.value| == |waveforms|
  {
    if |waveforms| == 0 then Ok([])
    else
      var before := EmbedAll(model, waveforms[..|waveforms| - 1]);
      if before.Err? then before
      else
        var e := GetEmbedding(model, waveforms[|waveforms| - 1]);
        if e.Err? then Err(e.msg) else Ok(before.value + [e.value])
  }

  /** Success means every waveform's embedding succeeded, and those are the embeddings listed. */
  lemma {:induction false} EmbedAllExact(model: Model, waveforms: seq<Array>)
    requires EmbedAll(model, waveforms).Ok?
    ensures forall i :: 0 <= i < |waveforms| ==>
      GetEmbedding(model, waveforms[i]).Ok? && EmbedAll(model, waveforms).value[i] == GetEmbedding(model, waveforms[i]).value
  {
    if |waveforms| > 0 {
      var init := waveforms[..|waveforms| - 1];
      EmbedAllExact(model, init);
      assert forall i :: 0 <= i < |init| ==> init[i] == waveforms[i];
    }
  }

  /**
   * `torch.mean(torch.stack(embeddings), dim=0)`: the elementwise mean, of the same size as one
   * embedding. Stacking raises on an empty list or on embeddings of different sizes.
   */
  function MeanEmbedding(embeddings: seq<seq<real>>): (r: Result<seq<real>>)
    ensures r.Ok? <==> |embeddings| > 0 && Rectangular(embeddings)
    ensures r.Ok? ==> |r.value| == |embeddings[0]|
    ensures r.Ok? ==> forall j :: 0 <= j < |r.value| ==> r.value[j] == Mean(Column(embeddings, j))
  {
    if |embeddings| == 0 then Err(EmptyStack)
    else if !Rectangular(embeddings) then Err(UnequalStack)
    else
      var m: Matrix := embeddings;
      Ok(seq(Cols(m), j requires 0 <= j < Cols(m) => Mean(Column(m, j))))
  }

  /** `enroll_speaker(waveforms)`: embed each waveform in order, then average the embeddings. */
  method EnrollSpeaker(model: Model, waveforms: seq<Array>) returns (r: Result<seq<real>>)
    ensures r == (match EmbedAll(model, waveforms)
                  case Err(e) => Err(e)
                  case Ok(es) => MeanEmbedding(es))
  {
    var embeddings: seq<seq<real>> := [];
    for i := 0 to |waveforms|
      invariant EmbedAll(model, waveforms[..i]) == Ok(embeddings)
    {
      assert waveforms[..i + 1][..i] == waveforms[..i];
      var embedding := GetEmbedding(model, waveforms[i]);
      if embedding.Err? {
        EmbedFailurePersists(model, waveforms, i + 1);
        return Err(embedding.msg);
      }
      embeddings := embeddings + [embedding.value];
    }
    assert waveforms[..|waveforms|] == waveforms;
    r := MeanEmbedding(embeddings);
  }

  /** After a failed embedding, later waveforms do not change the outcome. */
  lemma {:induction false} EmbedFailurePersists(model: Model, waveforms: seq<Array>, n: nat)
    requires n <= |waveforms| && EmbedAll(model, waveforms[..n]).Err?
    ensures EmbedAll(model, waveforms) == EmbedAll(model, waveforms[..n])
    decreases |waveforms| - n
  {
    if n < |waveforms| {
      assert waveforms[..n + 1][..n] == waveforms[..n];
      EmbedFailurePersists(model, waveforms, n + 1);
    } else {
      assert waveforms[..n] == waveforms;
    }
  }

  /** Every embedding succeeding is exactly what makes the whole batch succeed. */
  lemma {:induction false} EmbedAllSucceeds(model: Model, waveforms: seq<Array>)
    requires forall i :: 0 <= i < |waveforms| ==> GetEmbedding(model, waveforms[i]).Ok?
    ensures EmbedAll(model, waveforms).Ok?
  {
    if |waveforms| > 0 {
      var init := waveforms[..|waveforms| - 1];
      assert forall i :: 0 <= i < |init| ==> init[i] == waveforms[i];
      EmbedAllSucceeds(model, init);
    }
  }

  /** Enrolling no waveforms fails: stacking an empty list raises. */
  lemma EnrollNothingFails(model: Model)
    ensures (match EmbedAll(model, []) case Err(e) => Err(e) case Ok(es) => MeanEmbedding(es)) == Err(EmptyStack)
  {
  }

  /** One sample enrolls as its own embedding; identical embeddings average to themselves. */
  lemma MeanOfIdentical(embeddings: seq<seq<real>>)
    requires |embeddings| > 0 && forall i :: 0 <= i < |embeddings| ==> embeddings[i] == embeddings[0]
    ensures MeanEmbedding(embeddings) == Ok(embeddings[0])
  {
    var m: Matrix := embeddings;
    var r := MeanEmbedding(embeddings);
    assert |r.value| == |embeddings[0]|;
    forall j | 0 <= j < Cols(m) ensures r.value[j] == embeddings[0][j] {
      ConstantSum(Column(m, j));
    }
    assert r.value == embeddings[0];
  }
}

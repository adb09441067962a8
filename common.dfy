/** Value types and sequence helpers shared by every part of the voiceauth model. */
module Common {

  datatype Option<+T> = None | Some(value: T)

  /** The outcome of a Python call that either returns a value or raises with a message. */
  datatype Result<+T> = Ok(value: T) | Err(msg: string)

  /** A float produced by numpy arithmetic that may be NaN (for example the mean of an empty list). */
  datatype Float = Finite(v: real) | NaN

  /** Python's `x > t`: every comparison with NaN is False. */
  predicate GreaterThan(x: real, t: Float) {
    t.Finite? && x > t.v
  }

  /** `acc + r` when `r` succeeded; the failure of `r` otherwise. */
  function PrependOk<T>(acc: seq<T>, r: Result<seq<T>>): Result<seq<T>> {
    match r
    case Err(m) => Err(m)
    case Ok(rest) => Ok(acc + rest)
  }

  /** Run `first`, then `second`, concatenating their results; the first failure wins. */
  function Chain<T>(first: Result<seq<T>>, second: Result<seq<T>>): Result<seq<T>> {
    match first
    case Err(m) => Err(m)
    case Ok(xs) => PrependOk(xs, second)
  }

  // ---------------------------------------------------------------- arithmetic

  lemma MulLeft(a: nat, b: nat, c: nat)
    requires a <= b
    ensures a * c <= b * c
  {
  }

  /** Equal factors give equal products. */
  lemma MulCongruence(a: int, b: int, c: int)
    requires a == b
    ensures a * c == b * c
  {
  }

  lemma DivBounds(x: nat, d: nat)
    requires d > 0
    ensures (x / d) * d <= x < (x / d) * d + d
  {
  }

  /** Floor division is determined by its bounds. */
  lemma DivUnique(x: nat, d: nat, n: nat)
    requires d > 0 && n * d <= x < n * d + d
    ensures x / d == n
  {
    var q := x / d;
    DivBounds(x, d);
    if q != n {
      var lo, hi := if q < n then q else n, if q < n then n else q;
      MulGap(lo, hi, d);
    }
  }

  lemma MulGap(a: nat, b: nat, d: nat)
    requires a < b
    ensures a * d + d <= b * d
  {
    MulLeft(a + 1, b, d);
    assert (a + 1) * d == a * d + d;
  }

  /** Removing one divisor's worth lowers the quotient by one. */
  lemma DivShift(x: nat, d: nat)
    requires d > 0 && x >= d
    ensures (x - d) / d + 1 == x / d
  {
    var q := (x - d) / d;
    DivBounds(x - d, d);
    assert (q + 1) * d == q * d + d;
    DivUnique(x, d, q + 1);
  }

  lemma MulStrict(a: real, b: real, c: real)
    requires a < b && c > 0.0
    ensures a * c < b * c
  {
  }

  lemma MulMono(a: real, b: real, c: real)
    requires a <= b && c > 0.0
    ensures a * c <= b * c
  {
  }

  /** Comparing a quotient with a ratio is comparing the dividend with the scaled divisor. */
  /** `ratio * whole`: the share `ratio` of `whole`. */
  function Fraction(ratio: real, whole: real): real {
    ratio * whole
  }

  /** A larger ratio takes a no smaller share of a positive whole. */
  lemma FractionMono(low: real, high: real, whole: real)
    requires low <= high && whole > 0.0
    ensures Fraction(low, whole) <= Fraction(high, whole)
  {
    MulMono(low, high, whole);
  }

  /** A ratio below one takes less than the whole. */
  lemma FractionBelowWhole(ratio: real, whole: real)
    requires ratio < 1.0 && whole > 0.0
    ensures Fraction(ratio, whole) < whole
  {
    MulStrict(ratio, 1.0, whole);
  }

  /** Comparing a quotient with a ratio is comparing the dividend with that share of the divisor. */
  lemma QuotientAbove(x: real, top: real, ratio: real)
    requires top > 0.0
    ensures x / top > ratio <==> x > Fraction(ratio, top)
  {
    var q := x / top;
    assert x == q * top;
    if q > ratio {
      MulStrict(ratio, q, top);
    } else {
      MulMono(q, ratio, top);
    }
  }

  function Abs(x: real): real {
    if x < 0.0 then -x else x
  }

  function Sum(s: seq<real>): real {
    if |s| == 0 then 0.0 else Sum(s[..|s| - 1]) + s[|s| - 1]
  }

  function SumSquares(s: seq<real>): real {
    if |s| == 0 then 0.0 else SumSquares(s[..|s| - 1]) + s[|s| - 1] * s[|s| - 1]
  }

  /** Sum of squared deviations from `mu`. */
  function SumSquaredDeviations(s: seq<real>, mu: real): real {
    if |s| == 0 then 0.0
    else SumSquaredDeviations(s[..|s| - 1], mu) + (s[|s| - 1] - mu) * (s[|s| - 1] - mu)
  }

  /** `np.mean` of a non-empty sequence. */
  function Mean(s: seq<real>): real
    requires |s| > 0
  {
    Sum(s) / (|s| as real)
  }

  /** `np.var`: the population variance (ddof = 0). */
  function Variance(s: seq<real>): real
    requires |s| > 0
  {
    SumSquaredDeviations(s, Mean(s)) / (|s| as real)
  }

  lemma {:induction false} SumSquaresNonNegative(s: seq<real>)
    ensures SumSquares(s) >= 0.0
  {
    if |s| > 0 {
      SumSquaresNonNegative(s[..|s| - 1]);
    }
  }

  /** A signal of zero samples has zero energy. */
  lemma {:induction false} SilentSumSquares(s: seq<real>)
    requires forall i :: 0 <= i < |s| ==> s[i] == 0.0
    ensures SumSquares(s) == 0.0
  {
    if |s| > 0 {
      SilentSumSquares(s[..|s| - 1]);
    }
  }

  lemma {:induction false} SumSquaredDeviationsNonNegative(s: seq<real>, mu: real)
    ensures SumSquaredDeviations(s, mu) >= 0.0
  {
    if |s| > 0 {
      SumSquaredDeviationsNonNegative(s[..|s| - 1], mu);
      var d := s[|s| - 1] - mu;
      assert d * d >= 0.0;
    }
  }

  lemma VarianceNonNegative(s: seq<real>)
    requires |s| > 0
    ensures Variance(s) >= 0.0
  {
    SumSquaredDeviationsNonNegative(s, Mean(s));
  }

  /** The largest element of a non-empty sequence (`np.max`). */
  function MaxOf(s: seq<real>): (m: real)
    requires |s| > 0
    ensures forall i :: 0 <= i < |s| ==> s[i] <= m
    ensures exists i :: 0 <= i < |s| && s[i] == m
  {
    if |s| == 1 then s[0]
    else
      var rest := MaxOf(s[..|s| - 1]);
      if s[|s| - 1] > rest then s[|s| - 1] else rest
  }

  /** The smallest element of a non-empty sequence (`np.min`). */
  function MinOf(s: seq<real>): (m: real)
    requires |s| > 0
    ensures forall i :: 0 <= i < |s| ==> m <= s[i]
    ensures exists i :: 0 <= i < |s| && s[i] == m
  {
    if |s| == 1 then s[0]
    else
      var rest := MinOf(s[..|s| - 1]);
      if s[|s| - 1] < rest then s[|s| - 1] else rest
  }

  // ---------------------------------------------------------------- sequences

  /** Concatenation of a list of sequences in order (`np.concatenate`, or `np.vstack` on rows). */
  function Flatten<T>(ss: seq<seq<T>>): seq<T> {
    if |ss| == 0 then [] else Flatten(ss[..|ss| - 1]) + ss[|ss| - 1]
  }

  lemma {:induction false} FlattenAppend<T>(a: seq<seq<T>>, b: seq<seq<T>>)
    ensures Flatten(a + b) == Flatten(a) + Flatten(b)
  {
    if |b| == 0 {
      assert a + b == a;
    } else {
      var b' := b[..|b| - 1];
      assert (a + b)[..|a + b| - 1] == a + b';
      FlattenAppend(a, b');
    }
  }

  /** When every piece has length `w`, the concatenation has `|ss| * w` elements. */
  lemma {:induction false} FlattenUniformLength<T>(ss: seq<seq<T>>, w: nat)
    requires forall k :: 0 <= k < |ss| ==> |ss[k]| == w
    ensures |Flatten(ss)| == |ss| * w
  {
    if |ss| > 0 {
      FlattenUniformLength(ss[..|ss| - 1], w);
    }
  }

  /** Every element of every piece occurs in the concatenation. */
  lemma {:induction false} InFlatten<T>(ss: seq<seq<T>>, k: nat, j: nat)
    requires k < |ss| && j < |ss[k]|
    ensures ss[k][j] in Flatten(ss)
  {
    if k < |ss| - 1 {
      InFlatten(ss[..|ss| - 1], k, j);
    } else {
      assert Flatten(ss)[|Flatten(ss[..|ss| - 1])| + j] == ss[k][j];
    }
  }

  /** Piece `k` sits, unchanged, right after the pieces before it. */
  lemma {:induction false} FlattenBlock<T>(ss: seq<seq<T>>, k: nat)
    requires k < |ss|
    ensures var start := |Flatten(ss[..k])|;
      start + |ss[k]| <= |Flatten(ss)| && Flatten(ss)[start..start + |ss[k]|] == ss[k]
  {
    FlattenAppend(ss[..k + 1], ss[k + 1..]);
    assert ss[..k + 1] + ss[k + 1..] == ss;
    assert ss[..k + 1][..k] == ss[..k];
  }

  /** The elements of `xs` whose mask bit is set, in their original order (a boolean-mask filter). */
  function Select<T>(xs: seq<T>, mask: seq<bool>): seq<T>
    requires |xs| == |mask|
  {
    if |xs| == 0 then []
    else Select(xs[..|xs| - 1], mask[..|xs| - 1]) + (if mask[|xs| - 1] then [xs[|xs| - 1]] else [])
  }

  /** The positions whose mask bit is set, in increasing order. */
  function KeptIndices(mask: seq<bool>): (k: seq<nat>)
    ensures forall j :: 0 <= j < |k| ==> k[j] < |mask|
  {
    if |mask| == 0 then []
    else KeptIndices(mask[..|mask| - 1]) + (if mask[|mask| - 1] then [|mask| - 1] else [])
  }

  /** `KeptIndices` lists exactly the set positions, strictly increasing. */
  lemma {:induction false} KeptIndicesExact(mask: seq<bool>)
    ensures var k := KeptIndices(mask);
      (forall j :: 0 <= j < |k| ==> k[j] < |mask|)
      && (forall j, l :: 0 <= j < l < |k| ==> k[j] < k[l])
      && (forall i :: 0 <= i < |mask| ==> (mask[i] <==> i in k))
  {
    if |mask| > 0 {
      var p := mask[..|mask| - 1];
      KeptIndicesExact(p);
      assert forall i :: 0 <= i < |p| ==> p[i] == mask[i];
    }
  }

  /** An all-false mask keeps nothing. */
  lemma {:induction false} NothingKept(mask: seq<bool>)
    requires forall i :: 0 <= i < |mask| ==> !mask[i]
    ensures KeptIndices(mask) == []
  {
    if |mask| > 0 {
      var p := mask[..|mask| - 1];
      assert forall i :: 0 <= i < |p| ==> p[i] == mask[i];
      NothingKept(p);
    }
  }

  /** `Select` keeps, in order, exactly the elements at `KeptIndices`. */
  lemma {:induction false} SelectAtKeptIndices<T>(xs: seq<T>, mask: seq<bool>)
    requires |xs| == |mask|
    ensures var k := KeptIndices(mask);
      |Select(xs, mask)| == |k|
      && forall j :: 0 <= j < |k| ==> k[j] < |xs| && Select(xs, mask)[j] == xs[k[j]]
  {
    KeptIndicesExact(mask);
    if |xs| > 0 {
      SelectAtKeptIndices(xs[..|xs| - 1], mask[..|xs| - 1]);
    }
  }

  // ---------------------------------------------------------------- matrices

  /** A 2-D numpy array: every row has the same width. */
  predicate Rectangular(m: seq<seq<real>>) {
    forall i, j :: 0 <= i < |m| && 0 <= j < |m| ==> |m[i]| == |m[j]|
  }

  type Matrix = m: seq<seq<real>> | Rectangular(m)

  /** The column count; a matrix without rows is taken to have none. */
  function Cols(m: Matrix): nat {
    if |m| == 0 then 0 else |m[0]|
  }

  /** numpy's `a.size > 0`. */
  predicate HasElements(m: Matrix) {
    |m| > 0 && Cols(m) > 0
  }

  function TotalRows(ms: seq<Matrix>): nat {
    if |ms| == 0 then 0 else TotalRows(ms[..|ms| - 1]) + |ms[|ms| - 1]|
  }

  lemma {:induction false} FlattenRows(ms: seq<Matrix>)
    ensures |Flatten(ms)| == TotalRows(ms)
  {
    if |ms| > 0 {
      FlattenRows(ms[..|ms| - 1]);
    }
  }

  /** `np.vstack`: rows of all matrices in order; it raises when the widths disagree. */
  function VStack(ms: seq<Matrix>): (r: Option<Matrix>)
    ensures r.Some? <==> Rectangular(Flatten(ms))
    ensures r.Some? ==> |r.value| == TotalRows(ms)
    ensures r.Some? ==> forall k :: 0 <= k < |ms| ==>
      var start := TotalRows(ms[..k]);
      start + |ms[k]| <= |r.value| && r.value[start..start + |ms[k]|] == ms[k]
  {
    FlattenRows(ms);
    forall k | 0 <= k < |ms|
      ensures var start := TotalRows(ms[..k]);
        start + |ms[k]| <= |Flatten(ms)| && Flatten(ms)[start..start + |ms[k]|] == ms[k]
    {
      FlattenBlock(ms, k);
      FlattenRows(ms[..k]);
    }
    var flat := Flatten(ms);
    if Rectangular(flat) then Some(flat) else None
  }

  /** Matrices that agree on a positive width always stack. */
  lemma {:induction false} VStackSameWidth(ms: seq<Matrix>, w: nat)
    requires forall k :: 0 <= k < |ms| ==> forall i :: 0 <= i < |ms[k]| ==> |ms[k][i]| == w
    ensures forall i :: 0 <= i < |Flatten(ms)| ==> |Flatten(ms)[i]| == w
    ensures VStack(ms).Some?
  {
    if |ms| > 0 {
      VStackSameWidth(ms[..|ms| - 1], w);
      assert Flatten(ms) == Flatten(ms[..|ms| - 1]) + ms[|ms| - 1];
    }
  }

  /** Column `j` of a matrix, top to bottom. */
  function Column(m: Matrix, j: nat): (col: seq<real>)
    requires j < Cols(m)
    ensures |col| == |m|
  {
    seq(|m|, i requires 0 <= i < |m| => m[i][j])
  }

  lemma ConstantVarianceZero(s: seq<real>)
    requires |s| > 0 && forall i :: 0 <= i < |s| ==> s[i] == s[0]
    ensures Variance(s) == 0.0
  {
    ConstantSum(s);
    assert Mean(s) == s[0];
    ConstantDeviations(s, s[0]);
  }

  lemma {:induction false} ConstantSum(s: seq<real>)
    requires |s| > 0 && forall i :: 0 <= i < |s| ==> s[i] == s[0]
    ensures Sum(s) == (|s| as real) * s[0]
  {
    if |s| > 1 {
      ConstantSum(s[..|s| - 1]);
    }
  }

  /** A sum of values within `[lo, hi]` lies within `[n * lo, n * hi]`. */
  lemma {:induction false} SumBounds(s: seq<real>, lo: real, hi: real)
    requires forall i :: 0 <= i < |s| ==> lo <= s[i] <= hi
    ensures (|s| as real) * lo <= Sum(s) <= (|s| as real) * hi
  {
    if |s| > 0 {
      SumBounds(s[..|s| - 1], lo, hi);
    }
  }

  /** The mean of values within `[lo, hi]` lies within `[lo, hi]`. */
  lemma MeanWithinBounds(s: seq<real>, lo: real, hi: real)
    requires |s| > 0 && forall i :: 0 <= i < |s| ==> lo <= s[i] <= hi
    ensures lo <= Mean(s) <= hi
  {
    SumBounds(s, lo, hi);
    QuotientWithin(Sum(s), |s| as real, lo, hi);
  }

  lemma QuotientWithin(x: real, n: real, lo: real, hi: real)
    requires n > 0.0 && n * lo <= x <= n * hi
    ensures lo <= x / n <= hi
  {
    var q := x / n;
    assert q * n == x;
    if q < lo {
      MulStrict(q, lo, n);
    }
    if hi < q {
      MulStrict(hi, q, n);
    }
  }

  lemma {:induction false} ConstantDeviations(s: seq<real>, mu: real)
    requires forall i :: 0 <= i < |s| ==> s[i] == mu
    ensures SumSquaredDeviations(s, mu) == 0.0
  {
    if |s| > 0 {
      ConstantDeviations(s[..|s| - 1], mu);
    }
  }

  // ---------------------------------------------------------------- strings and paths

  predicate EndsWith(s: string, suffix: string) {
    |suffix| <= |s| && s[|s| - |suffix|..] == suffix
  }

  /**  The names that end in `.wav`, in listing order. */
  function WavNames(names: seq<string>): seq<string> {
    if |names| == 0 then []
    else
      var last := names[|names| - 1];
      WavNames(names[..|names| - 1]) + (if EndsWith(last, ".wav") then [last] else [])
  }

  /** A name is selected exactly when it is listed and ends in `.wav`. */
  lemma {:induction false} WavNamesExact(names: seq<string>)
    ensures forall n :: n in WavNames(names) <==> n in names && EndsWith(n, ".wav")
    ensures |WavNames(names)| <= |names|
  {
    if |names| > 0 {
      var init := names[..|names| - 1];
      WavNamesExact(init);
      assert names == init + [names[|names| - 1]];
    }
  }

  /** Listing more names after the others extends the selection at its end. */
  lemma {:induction false} WavNamesAppend(names: seq<string>, more: seq<string>)
    ensures WavNames(names + more) == WavNames(names) + WavNames(more)
    decreases |more|
  {
    if |more| == 0 {
      assert names + more == names;
    } else {
      assert (names + more)[..|names + more| - 1] == names + more[..|more| - 1];
      WavNamesAppend(names, more[..|more| - 1]);
    }
  }

  /** The payloads of the `Some` entries, in order (`[r for r in results if r is not None]`). */
  function Somes<T>(xs: seq<Option<T>>): (r: seq<T>)
    ensures |r| <= |xs|
  {
    if |xs| == 0 then []
    else Somes(xs[..|xs| - 1]) + (if xs[|xs| - 1].Some? then [xs[|xs| - 1].value] else [])
  }

  /** `Somes` keeps exactly the present payloads. */
  lemma {:induction false} SomesExact<T>(xs: seq<Option<T>>)
    ensures forall v :: v in Somes(xs) <==> Some(v) in xs
  {
    if |xs| > 0 {
      var init := xs[..|xs| - 1];
      SomesExact(init);
      assert xs == init + [xs[|xs| - 1]];
    }
  }

  lemma {:induction false} NoSomes<T>(xs: seq<Option<T>>)
    requires forall i :: 0 <= i < |xs| ==> xs[i].None?
    ensures Somes(xs) == []
  {
    if |xs| > 0 {
      NoSomes(xs[..|xs| - 1]);
    }
  }

  /** POSIX `os.path.join(root, name)` for two components. */
  function Join(root: string, name: string): string {
    if |name| > 0 && name[0] == '/' then name
    else if |root| == 0 || root[|root| - 1] == '/' then root + name
    else root + "/" + name
  }

  /** A joined path ends with the last character of the joined name. */
  lemma JoinLast(root: string, name: string)
    requires |name| > 0
    ensures var j := Join(root, name); |j| > 0 && j[|j| - 1] == name[|name| - 1]
  {
  }

  /** A joined path ends with every suffix of the joined name. */
  lemma JoinKeepsSuffix(root: string, name: string, suffix: string)
    requires EndsWith(name, suffix)
    ensures EndsWith(Join(root, name), suffix)
  {
    if !(|name| > 0 && name[0] == '/') {
      var head := if |root| == 0 || root[|root| - 1] == '/' then root else root + "/";
      var j := head + name;
      assert Join(root, name) == j;
      assert j[|j| - |suffix|..] == name[|name| - |suffix|..];
    }
  }

  // ---------------------------------------------------------------- persisted files

  /** What a file on disk holds: a pickled fitted mixture, a saved torch tensor, or a flat JSON object. */
  datatype Artifact =
    | ModelDump(modelId: nat)
    | TensorFile(values: seq<real>)
    | JsonRecord(fields: map<string, Float>)

  /** The threshold record `{'threshold': t}`. */
  function ThresholdRecord(t: Float): (a: Artifact)
    ensures a.JsonRecord? && a.fields.Keys == {"threshold"} && a.fields["threshold"] == t
  {
    JsonRecord(map["threshold" := t])
  }
}

/**
 * `np.percentile(a, q)` with numpy's default linear interpolation: sort the values, take the
 * virtual index `h = (n - 1) * q / 100` and interpolate between the two neighbouring order
 * statistics.
 */
module Percentile {
  import opened Common

  // ---------------------------------------------------------------- sorting

  predicate Sorted(s: seq<real>) {
    forall i, j :: 0 <= i <= j < |s| ==> s[i] <= s[j]
  }

  /** A value no larger than the head of a sorted sequence can be put in front of it. */
  lemma SortedCons(h: real, rest: seq<real>)
    requires Sorted(rest) && (|rest| > 0 ==> h <= rest[0])
    ensures Sorted([h] + rest)
  {
    var r := [h] + rest;
    forall i, j | 0 <= i <= j < |r| ensures r[i] <= r[j] {
      if i == 0 && j > 0 {
        assert r[j] == rest[j - 1] && rest[0] <= rest[j - 1];
      }
    }
  }

  /** Insert `x` before the first element that is not smaller than it. */
  function Insert(x: real, t: seq<real>): (r: seq<real>)
    ensures |r| == |t| + 1
  {
    if |t| == 0 then [x]
    else if x <= t[0] then [x] + t
    else [t[0]] + Insert(x, t[1..])
  }

  /** Inserting into a sorted sequence keeps it sorted. */
  lemma {:induction false} InsertSorted(x: real, t: seq<real>)
    requires Sorted(t)
    ensures Sorted(Insert(x, t))
    ensures Insert(x, t)[0] == x || (|t| > 0 && Insert(x, t)[0] == t[0])
    decreases |t|
  {
    if |t| > 0 {
      if x <= t[0] {
        SortedCons(x, t);
      } else {
        assert Sorted(t[1..]);
        InsertSorted(x, t[1..]);
        SortedCons(t[0], Insert(x, t[1..]));
      }
    }
  }

  /** Inserting adds exactly `x` to the values. */
  lemma {:induction false} InsertPermutes(x: real, t: seq<real>)
    ensures multiset(Insert(x, t)) == multiset(t) + multiset{x}
    decreases |t|
  {
    if |t| > 0 && x > t[0] {
      InsertPermutes(x, t[1..]);
      assert t == [t[0]] + t[1..];
    }
  }

  /** The values in ascending order (insertion sort). */
  function Sort(s: seq<real>): (t: seq<real>)
    ensures |t| == |s|
  {
    if |s| == 0 then [] else Insert(s[|s| - 1], Sort(s[..|s| - 1]))
  }

  lemma {:induction false} SortSorted(s: seq<real>)
    ensures Sorted(Sort(s))
  {
    if |s| > 0 {
      SortSorted(s[..|s| - 1]);
      InsertSorted(s[|s| - 1], Sort(s[..|s| - 1]));
    }
  }

  lemma {:induction false} SortPermutes(s: seq<real>)
    ensures multiset(Sort(s)) == multiset(s)
  {
    if |s| > 0 {
      var init, x := s[..|s| - 1], s[|s| - 1];
      SortPermutes(init);
      InsertPermutes(x, Sort(init));
      assert Sort(s) == Insert(x, Sort(init));
      assert s == init + [x];
      assert multiset(s) == multiset(init) + multiset{x};
    }
  }

  /** `Insert` puts `x` after every smaller value and before the first that is not smaller. */
  lemma {:induction false} InsertAt(x: real, t: seq<real>, p: nat)
    requires p <= |t|
    requires (forall i :: 0 <= i < p ==> t[i] < x) && (p < |t| ==> x <= t[p])
    ensures Insert(x, t) == t[..p] + [x] + t[p..]
    decreases p
  {
    if p > 0 {
      InsertAt(x, t[1..], p - 1);
      assert t[..p] == [t[0]] + t[1..][..p - 1];
    }
  }

  /** Sorting one value more inserts it into the sorted others. */
  lemma SortStep(s: seq<real>, x: real, p: nat)
    requires p <= |s|
    requires (forall i :: 0 <= i < p ==> Sort(s)[i] < x) && (p < |s| ==> x <= Sort(s)[p])
    ensures Sort(s + [x]) == Sort(s)[..p] + [x] + Sort(s)[p..]
  {
    assert (s + [x])[..|s|] == s;
    InsertAt(x, Sort(s), p);
  }

  /** Two sorted arrangements of the same values are the same sequence. */
  lemma {:induction false} SortedUnique(a: seq<real>, b: seq<real>)
    requires Sorted(a) && Sorted(b) && multiset(a) == multiset(b)
    ensures a == b
    decreases |a|
  {
    assert |a| == |multiset(a)| == |multiset(b)| == |b|;
    if |a| > 0 {
      HeadIsLeast(a, b);
      HeadIsLeast(b, a);
      TailMultiset(a);
      TailMultiset(b);
      assert Sorted(a[1..]) && Sorted(b[1..]);
      SortedUnique(a[1..], b[1..]);
      assert a == [a[0]] + a[1..] && b == [b[0]] + b[1..];
    }
  }

  lemma HeadIsLeast(a: seq<real>, b: seq<real>)
    requires |a| > 0 && Sorted(b) && multiset(a) == multiset(b)
    ensures |b| > 0 && b[0] <= a[0]
  {
    assert a[0] in multiset(a);
    assert a[0] in multiset(b);
    var j :| 0 <= j < |b| && b[j] == a[0];
  }

  lemma TailMultiset(a: seq<real>)
    requires |a| > 0
    ensures multiset(a[1..]) == multiset(a) - multiset{a[0]}
  {
    assert a == [a[0]] + a[1..];
  }

  /** Sorting is permutation-blind. */
  lemma SortPermutation(s: seq<real>, s': seq<real>)
    requires multiset(s) == multiset(s')
    ensures Sort(s) == Sort(s')
  {
    SortSorted(s);
    SortSorted(s');
    SortPermutes(s);
    SortPermutes(s');
    SortedUnique(Sort(s), Sort(s'));
  }

  /** Every order statistic is one of the values, so it lies between their minimum and maximum. */
  lemma SortedWithinRange(s: seq<real>, k: nat)
    requires k < |s|
    ensures MinOf(s) <= Sort(s)[k] <= MaxOf(s)
  {
    SortPermutes(s);
    assert Sort(s)[k] in multiset(s);
    var i :| 0 <= i < |s| && s[i] == Sort(s)[k];
  }

  // ---------------------------------------------------------------- counting

  /** How many values are at most `v`. */
  function CountAtMost(s: seq<real>, v: real): nat {
    if |s| == 0 then 0 else CountAtMost(s[..|s| - 1], v) + (if s[|s| - 1] <= v then 1 else 0)
  }

  lemma {:induction false} CountAppend(a: seq<real>, b: seq<real>, v: real)
    ensures CountAtMost(a + b, v) == CountAtMost(a, v) + CountAtMost(b, v)
    decreases |b|
  {
    if |b| == 0 {
      assert a + b == a;
    } else {
      assert (a + b)[..|a + b| - 1] == a + b[..|b| - 1];
      CountAppend(a, b[..|b| - 1], v);
    }
  }

  lemma {:induction false} CountInsert(x: real, t: seq<real>, v: real)
    ensures CountAtMost(Insert(x, t), v) == CountAtMost(t, v) + (if x <= v then 1 else 0)
    decreases |t|
  {
    if |t| > 0 {
      assert t == [t[0]] + t[1..];
      CountAppend([t[0]], t[1..], v);
      if x <= t[0] {
        CountAppend([x], t, v);
      } else {
        CountInsert(x, t[1..], v);
        CountAppend([t[0]], Insert(x, t[1..]), v);
      }
      assert CountAtMost([t[0]], v) == (if t[0] <= v then 1 else 0) by {
        assert [t[0]][..0] == [];
      }
      assert CountAtMost([x], v) == (if x <= v then 1 else 0) by {
        assert [x][..0] == [];
      }
    }
  }

  lemma {:induction false} CountSort(s: seq<real>, v: real)
    ensures CountAtMost(Sort(s), v) == CountAtMost(s, v)
  {
    if |s| > 0 {
      CountSort(s[..|s| - 1], v);
      CountInsert(s[|s| - 1], Sort(s[..|s| - 1]), v);
    }
  }

  /** Raising values never adds to the count below a bound. */
  lemma {:induction false} CountDominated(s: seq<real>, s': seq<real>, v: real)
    requires |s| == |s'| && forall i :: 0 <= i < |s| ==> s[i] <= s'[i]
    ensures CountAtMost(s', v) <= CountAtMost(s, v)
  {
    if |s| > 0 {
      CountDominated(s[..|s| - 1], s'[..|s'| - 1], v);
    }
  }

  lemma {:induction false} CountAllAtMost(s: seq<real>, v: real)
    requires forall i :: 0 <= i < |s| ==> s[i] <= v
    ensures CountAtMost(s, v) == |s|
  {
    if |s| > 0 {
      CountAllAtMost(s[..|s| - 1], v);
    }
  }

  lemma {:induction false} CountNoneAtMost(s: seq<real>, v: real)
    requires forall i :: 0 <= i < |s| ==> s[i] > v
    ensures CountAtMost(s, v) == 0
  {
    if |s| > 0 {
      CountNoneAtMost(s[..|s| - 1], v);
    }
  }

  lemma {:induction false} CountAtMostLength(s: seq<real>, v: real)
    ensures CountAtMost(s, v) <= |s|
  {
    if |s| > 0 {
      CountAtMostLength(s[..|s| - 1], v);
    }
  }

  /** In a sorted sequence, `t[k] <= v` exactly when more than `k` values are at most `v`. */
  lemma SortedRankCount(t: seq<real>, k: nat, v: real)
    requires Sorted(t) && k < |t|
    ensures t[k] <= v <==> CountAtMost(t, v) > k
  {
    if t[k] <= v {
      RankCountAtMost(t, k, v);
    } else {
      RankCountAbove(t, k, v);
    }
  }

  lemma RankCountAtMost(t: seq<real>, k: nat, v: real)
    requires Sorted(t) && k < |t| && t[k] <= v
    ensures CountAtMost(t, v) > k
  {
    assert t == t[..k + 1] + t[k + 1..];
    CountAppend(t[..k + 1], t[k + 1..], v);
    CountAllAtMost(t[..k + 1], v);
  }

  lemma RankCountAbove(t: seq<real>, k: nat, v: real)
    requires Sorted(t) && k < |t| && t[k] > v
    ensures CountAtMost(t, v) <= k
  {
    assert t == t[..k] + t[k..];
    CountAppend(t[..k], t[k..], v);
    CountNoneAtMost(t[k..], v);
    CountAtMostLength(t[..k], v);
  }

  /** Raising any values raises (weakly) every order statistic. */
  lemma SortMonotone(s: seq<real>, s': seq<real>, k: nat)
    requires |s| == |s'| && k < |s| && forall i :: 0 <= i < |s| ==> s[i] <= s'[i]
    ensures Sort(s)[k] <= Sort(s')[k]
  {
    var v := Sort(s')[k];
    SortSorted(s);
    SortSorted(s');
    SortedRankCount(Sort(s'), k, v);
    CountSort(s', v);
    CountDominated(s, s', v);
    CountSort(s, v);
    SortedRankCount(Sort(s), k, v);
  }

  // ---------------------------------------------------------------- interpolation

  /** `a + frac * (b - a)`. */
  function Interpolate(a: real, b: real, frac: real): real {
    a + frac * (b - a)
  }

  /** Between two ordered values the interpolation stays between them. */
  lemma InterpolateBetween(a: real, b: real, frac: real)
    requires a <= b && 0.0 <= frac <= 1.0
    ensures a <= Interpolate(a, b, frac) <= b
  {
    MulMonoNonNeg(0.0, frac, b - a);
    MulMonoNonNeg(frac, 1.0, b - a);
  }

  /** Raising either end never lowers the interpolation. */
  lemma InterpolateMonotone(a: real, b: real, a': real, b': real, frac: real)
    requires a <= a' && b <= b' && 0.0 <= frac <= 1.0
    ensures Interpolate(a, b, frac) <= Interpolate(a', b', frac)
  {
    RaiseUpper(a, b, b', frac);
    RaiseLower(a, a', b', frac);
  }

  lemma RaiseUpper(a: real, b: real, b': real, frac: real)
    requires b <= b' && 0.0 <= frac
    ensures Interpolate(a, b, frac) <= Interpolate(a, b', frac)
  {
    MulMonoNonNeg(b - a, b' - a, frac);
    assert (b - a) * frac == frac * (b - a) && (b' - a) * frac == frac * (b' - a);
  }

  lemma RaiseLower(a: real, a': real, b: real, frac: real)
    requires a <= a' && frac <= 1.0
    ensures Interpolate(a, b, frac) <= Interpolate(a', b, frac)
  {
    MulMonoNonNeg(frac, 1.0, a' - a);
    assert frac * (b - a) - frac * (b - a') == frac * (a' - a);
  }

  lemma MulMonoNonNeg(x: real, y: real, c: real)
    requires x <= y && c >= 0.0
    ensures x * c <= y * c
  {
  }

  /** The lower neighbour of the virtual index `(n - 1) * q / 100`, and the fractional part. */
  function LowerRank(n: nat, q: nat): (lo: nat)
    requires n > 0 && q <= 100
    ensures lo < n
  {
    var scaled := (n - 1) * q;
    MulLeft(q, 100, n - 1);
    DivBounds(scaled, 100);
    DivUnique((n - 1) * 100, 100, n - 1);
    scaled / 100
  }

  function RankFraction(n: nat, q: nat): (frac: real)
    requires n > 0 && q <= 100
    ensures 0.0 <= frac < 1.0
  {
    (((n - 1) * q) % 100) as real / 100.0
  }

  /** Linear interpolation at the virtual index `(n - 1) * q / 100` of already sorted values. */
  function PercentileOfSorted(t: seq<real>, q: nat): real
    requires |t| > 0 && q <= 100
  {
    var lo := LowerRank(|t|, q);
    if lo + 1 < |t| then Interpolate(t[lo], t[lo + 1], RankFraction(|t|, q)) else t[lo]
  }

  /**
   * `np.percentile(s, q)` with numpy's default linear method; numpy raises on an empty
   * array. The value lies between the two order statistics around rank `(n - 1) * q / 100`.
   */
  function Percentile(s: seq<real>, q: nat): (p: real)
    requires |s| > 0 && q <= 100
    ensures Sort(s)[LowerRank(|s|, q)] <= p <= Sort(s)[UpperRank(|s|, q)]
  {
    SortedAtRank(s, q);
    BetweenRanks(Sort(s), q);
    PercentileOfSorted(Sort(s), q)
  }

  /** The percentile of a single value is that value. */
  lemma PercentileOfOne(x: real, q: nat)
    requires q <= 100
    ensures Percentile([x], q) == x
  {
    assert Sort([x]) == [x] by {
      assert [x][..0] == [];
    }
  }

  /** Neighbouring sorted values are in order. */
  lemma SortedNeighbours(s: seq<real>, k: nat)
    requires k + 1 < |s|
    ensures Sort(s)[k] <= Sort(s)[k + 1]
  {
    SortSorted(s);
  }

  /** The upper interpolation neighbour: the next rank, or the last one. */
  function UpperRank(n: nat, q: nat): (hi: nat)
    requires n > 0 && q <= 100
    ensures hi < n
  {
    var lo := LowerRank(n, q);
    if lo + 1 < n then lo + 1 else lo
  }

  /** The sorted values at the two interpolation neighbours are in order. */
  lemma SortedAtRank(s: seq<real>, q: nat)
    requires |s| > 0 && q <= 100
    ensures LowerRank(|Sort(s)|, q) + 1 < |Sort(s)| ==> Sort(s)[LowerRank(|Sort(s)|, q)] <= Sort(s)[LowerRank(|Sort(s)|, q) + 1]
  {
    if LowerRank(|s|, q) + 1 < |s| {
      SortedNeighbours(s, LowerRank(|s|, q));
    }
  }

  /** Interpolating between ordered neighbours stays between them. */
  lemma BetweenRanks(t: seq<real>, q: nat)
    requires |t| > 0 && q <= 100
    requires LowerRank(|t|, q) + 1 < |t| ==> t[LowerRank(|t|, q)] <= t[LowerRank(|t|, q) + 1]
    ensures t[LowerRank(|t|, q)] <= PercentileOfSorted(t, q) <= t[UpperRank(|t|, q)]
  {
    var lo := LowerRank(|t|, q);
    if lo + 1 < |t| {
      InterpolateBetween(t[lo], t[lo + 1], RankFraction(|t|, q));
    }
  }

  /** The percentile lies between the smallest and the largest value. */
  lemma PercentileWithinRange(s: seq<real>, q: nat)
    requires |s| > 0 && q <= 100
    ensures MinOf(s) <= Percentile(s, q) <= MaxOf(s)
  {
    SortedWithinRange(s, LowerRank(|s|, q));
    SortedWithinRange(s, UpperRank(|s|, q));
  }

  /** Reordering the values does not change the percentile. */
  lemma PercentilePermutation(s: seq<real>, s': seq<real>, q: nat)
    requires |s| > 0 && q <= 100 && multiset(s) == multiset(s')
    ensures |s'| == |s| && Percentile(s, q) == Percentile(s', q)
  {
    assert |s| == |multiset(s)| == |multiset(s')| == |s'|;
    SortPermutation(s, s');
  }

  /** Raising any of the values never lowers the percentile. */
  lemma PercentileMonotone(s: seq<real>, s': seq<real>, q: nat)
    requires |s| > 0 && q <= 100 && |s'| == |s|
    requires forall i :: 0 <= i < |s| ==> s[i] <= s'[i]
    ensures Percentile(s, q) <= Percentile(s', q)
  {
    var lo := LowerRank(|s|, q);
    SortMonotone(s, s', lo);
    if lo + 1 < |s| {
      SortMonotone(s, s', lo + 1);
      InterpolateMonotone(Sort(s)[lo], Sort(s)[lo + 1], Sort(s')[lo], Sort(s')[lo + 1], RankFraction(|s|, q));
    }
  }
}

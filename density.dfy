/** Sliding-window density curve over time buckets, its moving-average
    smoothing, and local-minimum detection with relative depth
    (`_internal/density.py`). */
module Density {
  import opened PyBase
  import Sorting

  /** Message texts grouped by bucket start time (seconds). */
  type Buckets = map<int, seq<string>>

  /** `buckets.get(t, [])` */
  function BucketAt(buckets: Buckets, t: int): seq<string>
  {
    if t in buckets then buckets[t] else []
  }

  /** `len(buckets.get(t, []))` */
  function BucketSize(buckets: Buckets, t: int): nat
  {
    |BucketAt(buckets, t)|
  }

  /** Total number of messages in the buckets at the listed start times. */
  function CountIn(buckets: Buckets, ts: seq<int>): nat
  {
    if ts == [] then 0 else CountIn(buckets, ts[..|ts| - 1]) + BucketSize(buckets, ts[|ts| - 1])
  }

  // ---------------------------------------------------------------- smooth

  /** First index of the averaging slice around `i`. */
  function SliceLo(i: int, half: int): int { Max(0, i - half) }

  /** One past the last index of the averaging slice around `i`. */
  function SliceHi(n: int, i: int, half: int): int { Min(n, i + half + 1) }

  /** Centered moving average with radius `window / 2`; each value is
      divided by the number of samples its slice actually covers. */
  function Smooth(values: seq<real>, window: int): (r: seq<real>)
    ensures |r| == |values|
  {
    var n := |values|;
    if n == 0 then []
    else
      seq(n, i requires 0 <= i < n => SmoothAt(values, window / 2, i))
  }

  /** `sum(values[lo:hi]) / (hi - lo)` for the slice of radius `half`
      around `i`, with Python's slice rules and the raw bounds as divisor. */
  function SmoothAt(values: seq<real>, half: int, i: int): real
    requires 0 <= i < |values|
  {
    var lo, hi := SliceLo(i, half), SliceHi(|values|, i, half);
    SumReal(Slice(values, lo, hi)) / (hi - lo) as real
  }

  /** A negative window has a negative radius `half`: the slice starts at
      `i - half`, past `i`, and stops at `i + half + 1`, at or before `i`, so
      the divisor `hi - lo` is the odd negative number `2 * half + 1` and
      never zero. For a window of -1 or -2 the slice is empty and the value
      is 0; from -3 down a negative stop counts from the end of the list,
      so the slice may hold values whose sum is divided by that negative
      number. */
  lemma SmoothNegative(values: seq<real>, window: int, i: int)
    requires window < 0 && 0 <= i < |values|
    ensures var half := window / 2;
      var lo, hi := SliceLo(i, half), SliceHi(|values|, i, half);
      && lo == i - half && hi == i + half + 1
      && hi - lo == 2 * half + 1 < 0
      && Smooth(values, window)[i] == SumReal(Slice(values, lo, hi)) / (2 * half + 1) as real
      && (window >= -2 ==> Smooth(values, window)[i] == 0.0)
  {
    var half := window / 2;
    assert half < 0;
    assert Smooth(values, window)[i] == SmoothAt(values, half, i);
    SmoothAtNegative(values, half, i);
    if window >= -2 {
      assert half == -1;
      SmoothAtMinusOne(values, i);
    }
  }

  lemma SmoothAtNegative(values: seq<real>, half: int, i: int)
    requires half < 0 && 0 <= i < |values|
    ensures var lo, hi := SliceLo(i, half), SliceHi(|values|, i, half);
      && lo == i - half && hi == i + half + 1
      && SmoothAt(values, half, i) == SumReal(Slice(values, lo, hi)) / (2 * half + 1) as real
  {
  }

  /** A radius of -1 gives the empty slice `values[i+1:i]`. */
  lemma SmoothAtMinusOne(values: seq<real>, i: int)
    requires 0 <= i < |values|
    ensures SmoothAt(values, -1, i) == 0.0
  {
    assert Slice(values, i + 1, i) == [];
  }

  /** With a negative window, non-negative values smooth to values that are
      at most zero: a non-negative slice sum over a negative divisor. */
  lemma SmoothNonPositive(values: seq<real>, window: int)
    requires window < 0
    requires forall k :: 0 <= k < |values| ==> values[k] >= 0.0
    ensures forall k :: 0 <= k < |values| ==> Smooth(values, window)[k] <= 0.0
  {
    forall i | 0 <= i < |values| ensures Smooth(values, window)[i] <= 0.0 {
      SmoothNonPositiveAt(values, window, i);
    }
  }

  lemma SmoothNonPositiveAt(values: seq<real>, window: int, i: int)
    requires window < 0 && 0 <= i < |values|
    requires forall k :: 0 <= k < |values| ==> values[k] >= 0.0
    ensures Smooth(values, window)[i] <= 0.0
  {
    var half := window / 2;
    var slice := Slice(values, SliceLo(i, half), SliceHi(|values|, i, half));
    SmoothNegative(values, window, i);
    SumNonNegative(slice);
    NonNegOverNegative(SumReal(slice), (2 * half + 1) as real);
  }

  lemma {:induction false} SumNonNegative(s: seq<real>)
    requires forall k :: 0 <= k < |s| ==> s[k] >= 0.0
    ensures SumReal(s) >= 0.0
  {
    if s != [] {
      SumNonNegative(s[..|s| - 1]);
    }
  }

  lemma NonNegOverNegative(sum: real, d: real)
    requires sum >= 0.0 && d < 0.0
    ensures sum / d <= 0.0
  {
  }

  /** A window of -3 on four equal values: at position 0 the radius is -2,
      the slice is `values[2:-1]`, one value, and the divisor is -3. */
  lemma SmoothWrapsAround()
    ensures Smooth([1.0, 1.0, 1.0, 1.0], -3)[0] == -1.0 / 3.0
  {
    var values := [1.0, 1.0, 1.0, 1.0];
    SmoothNegative(values, -3, 0);
    assert Slice(values, 2, -1) == values[2..3];
    assert SumReal(values[2..3]) == SumReal([]) + 1.0;
  }

  /** Every smoothed value is the average of a non-empty slice around its
      position, so it lies between that slice's minimum and maximum. */
  lemma SmoothWithinSlice(values: seq<real>, window: int, i: int)
    requires window >= 0 && 0 <= i < |values|
    ensures var lo, hi := SliceLo(i, window / 2), SliceHi(|values|, i, window / 2);
      && 0 <= lo <= i < hi <= |values|
      && MinReal(values[lo..hi]) <= Smooth(values, window)[i] <= MaxReal(values[lo..hi])
  {
    var half := window / 2;
    var lo, hi := SliceLo(i, half), SliceHi(|values|, i, half);
    assert 0 <= lo <= i < hi <= |values|;
    assert Smooth(values, window)[i] == SmoothAt(values, half, i);
    SmoothAtWithin(values, half, i);
  }

  lemma SmoothAtWithin(values: seq<real>, half: int, i: int)
    requires half >= 0 && 0 <= i < |values|
    ensures var lo, hi := SliceLo(i, half), SliceHi(|values|, i, half);
      && 0 <= lo <= i < hi <= |values|
      && MinReal(values[lo..hi]) <= SmoothAt(values, half, i) <= MaxReal(values[lo..hi])
  {
    var lo, hi := SliceLo(i, half), SliceHi(|values|, i, half);
    var slice := values[lo..hi];
    SmoothAtInside(values, half, i);
    AverageBounds(slice, MinReal(slice), MaxReal(slice));
  }

  /** A radius of zero or more puts `i` inside its slice, which Python
      takes as written. */
  lemma SmoothAtInside(values: seq<real>, half: int, i: int)
    requires half >= 0 && 0 <= i < |values|
    ensures var lo, hi := SliceLo(i, half), SliceHi(|values|, i, half);
      && 0 <= lo <= i < hi <= |values|
      && SmoothAt(values, half, i) == SumReal(values[lo..hi]) / (hi - lo) as real
  {
    var lo, hi := SliceLo(i, half), SliceHi(|values|, i, half);
    assert Slice(values, lo, hi) == values[lo..hi];
  }

  lemma AverageBounds(slice: seq<real>, mn: real, mx: real)
    requires |slice| > 0
    requires forall k :: 0 <= k < |slice| ==> mn <= slice[k] <= mx
    ensures mn <= SumReal(slice) / |slice| as real <= mx
  {
    var n := |slice| as real;
    var t := SumReal(slice);
    SumRealBounds(slice, mn, mx);
    assert n * mn <= t <= n * mx;
    DivBounds(t, n, mn, mx);
  }

  lemma DivBounds(sum: real, len: real, lo: real, hi: real)
    requires len > 0.0 && len * lo <= sum <= len * hi
    ensures lo <= sum / len <= hi
  {
  }

  /** A window of 0 or 1 leaves the values unchanged. */
  lemma SmoothIdentity(values: seq<real>, window: int)
    requires window == 0 || window == 1
    ensures Smooth(values, window) == values
  {
    var r := Smooth(values, window);
    assert window / 2 == 0;
    forall i | 0 <= i < |values| ensures r[i] == values[i] {
      assert r[i] == SmoothAt(values, 0, i);
      SmoothAtRadiusZero(values, i);
    }
  }

  lemma SmoothAtRadiusZero(values: seq<real>, i: int)
    requires 0 <= i < |values|
    ensures SmoothAt(values, 0, i) == values[i]
  {
    SmoothAtInside(values, 0, i);
    assert SliceLo(i, 0) == i && SliceHi(|values|, i, 0) == i + 1;
    var slice := values[i..i + 1];
    assert slice == [values[i]];
    assert SumReal(slice) == SumReal([]) + values[i];
  }

  /** Non-negative counts smooth to non-negative values for every window
      of -2 or more (below that, see `SmoothNonPositive`). */
  lemma SmoothNonNegative(values: seq<real>, window: int)
    requires window >= -2
    requires forall k :: 0 <= k < |values| ==> values[k] >= 0.0
    ensures forall k :: 0 <= k < |values| ==> Smooth(values, window)[k] >= 0.0
  {
    forall k | 0 <= k < |values| ensures Smooth(values, window)[k] >= 0.0 {
      if window < 0 {
        SmoothNegative(values, window, k);
      } else {
        SmoothNonNegativeAt(values, window, k);
      }
    }
  }

  lemma SmoothNonNegativeAt(values: seq<real>, window: int, i: int)
    requires window >= 0 && 0 <= i < |values|
    requires forall k :: 0 <= k < |values| ==> values[k] >= 0.0
    ensures Smooth(values, window)[i] >= 0.0
  {
    SmoothWithinSlice(values, window, i);
    var lo, hi := SliceLo(i, window / 2), SliceHi(|values|, i, window / 2);
    var m := MinReal(values[lo..hi]);
    assert m in values[lo..hi];
  }

  // ------------------------------------------------------- sliding_density

  /** Messages counted by the window starting at `p`: buckets at
      `p, p + bucketSec, ...` below `min(p + windowSec, duration + bucketSec)`. */
  function WindowCount(buckets: Buckets, bucketSec: int, duration: int, windowSec: int, p: int): nat
    requires bucketSec > 0
  {
    CountIn(buckets, Range(p, Min(p + windowSec, duration + bucketSec), bucketSec))
  }

  /** Window starts `0, step, 2*step, ...` strictly below `duration`, each
      with the message count of its window. */
  method SlidingDensity(buckets: Buckets, bucketSec: int, duration: int, windowSec: int, stepSec: int)
    returns (positions: seq<int>, densities: seq<real>)
    requires bucketSec > 0 && stepSec > 0
    ensures |positions| == |densities|
    ensures |positions| == if duration > 0 then (duration + stepSec - 1) / stepSec else 0
    ensures forall k :: 0 <= k < |positions| ==> positions[k] == k * stepSec && positions[k] < duration
    ensures forall k :: 0 <= k < |densities| ==>
      densities[k] == WindowCount(buckets, bucketSec, duration, windowSec, positions[k]) as real
  {
    var starts := Range(0, duration, stepSec);
    positions, densities := [], [];
    for k := 0 to |starts|
      invariant positions == starts[..k]
      invariant |densities| == k
      invariant forall j :: 0 <= j < k ==>
        densities[j] == WindowCount(buckets, bucketSec, duration, windowSec, starts[j]) as real
    {
      var start := starts[k];
      var end := Min(start + windowSec, duration + bucketSec);
      var count := CountIn(buckets, Range(start, end, bucketSec));
      assert count == WindowCount(buckets, bucketSec, duration, windowSec, starts[k]);
      positions := positions + [start];
      densities := densities + [count as real];
    }
    assert positions == starts;
    WindowStarts(duration, stepSec);
  }

  /** The window starts are the multiples of the step below the duration. */
  lemma WindowStarts(duration: int, stepSec: int)
    requires stepSec > 0
    ensures var starts := Range(0, duration, stepSec);
      && |starts| == (if duration > 0 then (duration + stepSec - 1) / stepSec else 0)
      && forall k :: 0 <= k < |starts| ==> starts[k] == k * stepSec && starts[k] < duration
  {
    RangeSpec(0, duration, stepSec);
  }

  // -------------------------------------------------------- collect_minima

  /** A local minimum of the curve: an interior point no higher than either neighbour. */
  predicate IsLocalMin(s: seq<real>, i: int)
  {
    1 <= i < |s| - 1 && s[i] <= s[i - 1] && s[i] <= s[i + 1]
  }

  const Epsilon: real := 0.000000001

  /** `max(left_peak, right_peak, 1e-9)`: the highest value within five
      samples on either side, never below the floor 1e-9. */
  function Peak(s: seq<real>, i: int): (r: real)
    requires 1 <= i < |s| - 1
    ensures r >= Epsilon
    ensures r >= s[i - 1] && r >= s[i + 1]
  {
    var left := s[Max(0, i - 5)..i];
    var right := s[i + 1..Min(|s|, i + 6)];
    assert left[|left| - 1] == s[i - 1];
    assert right[0] == s[i + 1];
    RealMax(RealMax(MaxReal(left), MaxReal(right)), Epsilon)
  }

  /** Relative depth `1 - s[i] / peak`. */
  function Depth(s: seq<real>, i: int): real
    requires 1 <= i < |s| - 1
  {
    1.0 - s[i] / Peak(s, i)
  }

  datatype Minimum = Minimum(index: int, depth: real)

  function DepthKey(m: Minimum): real { m.depth }
  function IndexOf(m: Minimum): int { m.index }

  /** The local minima among indices `1 .. i-1`, in ascending index order. */
  function Candidates(s: seq<real>, i: int): seq<Minimum>
    requires i <= |s| - 1
  {
    if i <= 1 then []
    else Candidates(s, i - 1) + (if IsLocalMin(s, i - 1) then [Minimum(i - 1, Depth(s, i - 1))] else [])
  }

  /** Each entry is an interior local minimum below `i` with its own depth. */
  ghost predicate SoundBelow(s: seq<real>, i: int, r: seq<Minimum>)
  {
    forall k :: 0 <= k < |r| ==>
      1 <= r[k].index < i && IsLocalMin(s, r[k].index) && r[k].depth == Depth(s, r[k].index)
  }

  /** Entries in strictly ascending index order. */
  ghost predicate AscendingIndex(r: seq<Minimum>)
  {
    forall k, l :: 0 <= k < l < |r| ==> r[k].index < r[l].index
  }

  /** Every local minimum in `1 .. i-1` has an entry. */
  ghost predicate CompleteBelow(s: seq<real>, i: int, r: seq<Minimum>)
  {
    forall j :: 1 <= j < i && IsLocalMin(s, j) ==> exists k :: 0 <= k < |r| && r[k].index == j
  }

  /** Each entry of the scan is a local minimum below `i` with its depth. */
  lemma {:induction false} CandidatesSound(s: seq<real>, i: int)
    requires i <= |s| - 1
    ensures SoundBelow(s, i, Candidates(s, i))
  {
    if i > 1 {
      CandidatesSound(s, i - 1);
      var prev := Candidates(s, i - 1);
      var r := Candidates(s, i);
      assert r[..|prev|] == prev;
      forall k | 0 <= k < |r|
        ensures 1 <= r[k].index < i && IsLocalMin(s, r[k].index) && r[k].depth == Depth(s, r[k].index)
      {
        if k < |prev| {
          assert r[k] == prev[k];
        }
      }
    }
  }

  /** The scan lists its entries in ascending index order. */
  lemma {:induction false} CandidatesAscending(s: seq<real>, i: int)
    requires i <= |s| - 1
    ensures AscendingIndex(Candidates(s, i))
  {
    if i > 1 {
      CandidatesAscending(s, i - 1);
      CandidatesSound(s, i - 1);
      var prev := Candidates(s, i - 1);
      var r := Candidates(s, i);
      assert r[..|prev|] == prev;
      forall k, l | 0 <= k < l < |r| ensures r[k].index < r[l].index {
        assert r[k] == prev[k];
        if l < |prev| {
          assert r[l] == prev[l];
        }
      }
    }
  }

  /** The scan misses no local minimum below `i`. */
  lemma {:induction false} CandidatesComplete(s: seq<real>, i: int)
    requires i <= |s| - 1
    ensures CompleteBelow(s, i, Candidates(s, i))
  {
    if i > 1 {
      CandidatesComplete(s, i - 1);
      var prev := Candidates(s, i - 1);
      var r := Candidates(s, i);
      assert r[..|prev|] == prev;
      forall j | 1 <= j < i && IsLocalMin(s, j) ensures exists k :: 0 <= k < |r| && r[k].index == j {
        if j == i - 1 {
          assert r[|prev|].index == j;
        } else {
          var k :| 0 <= k < |prev| && prev[k].index == j;
          assert r[k] == prev[k];
        }
      }
    }
  }

  /** The scan collects exactly the local minima below `i`, in index order. */
  lemma CandidatesExact(s: seq<real>, i: int)
    requires i <= |s| - 1
    ensures SoundBelow(s, i, Candidates(s, i))
    ensures AscendingIndex(Candidates(s, i))
    ensures CompleteBelow(s, i, Candidates(s, i))
  {
    CandidatesSound(s, i);
    CandidatesAscending(s, i);
    CandidatesComplete(s, i);
  }

  /** The result of `collect_minima`: the local minima ranked by depth,
      deepest first, earlier index first among equal depths. */
  function Minima(s: seq<real>): seq<Minimum>
  {
    if |s| <= 2 then [] else Sorting.SortDesc(Candidates(s, |s| - 1), DepthKey)
  }

  lemma SameElements<T>(a: seq<T>, b: seq<T>)
    requires multiset(a) == multiset(b)
    ensures forall x :: x in a <==> x in b
  {
    forall x ensures x in a <==> x in b {
      assert x in a <==> x in multiset(a);
      assert x in b <==> x in multiset(b);
    }
  }

  /** Each entry is a local minimum carrying its own depth. */
  ghost predicate OnlyMinima(s: seq<real>, m: seq<Minimum>)
  {
    forall k :: 0 <= k < |m| ==> IsLocalMin(s, m[k].index) && m[k].depth == Depth(s, m[k].index)
  }

  /** Every local minimum has an entry. */
  ghost predicate AllMinima(s: seq<real>, m: seq<Minimum>)
  {
    forall i :: IsLocalMin(s, i) ==> exists k :: 0 <= k < |m| && m[k].index == i
  }

  lemma MinimaSameEntries(s: seq<real>)
    requires |s| > 2
    ensures forall x :: x in Minima(s) <==> x in Candidates(s, |s| - 1)
  {
    SameElements(Minima(s), Candidates(s, |s| - 1));
  }

  /** Every local minimum appears, nothing else does, each with its depth. */
  lemma MinimaExact(s: seq<real>)
    ensures OnlyMinima(s, Minima(s)) && AllMinima(s, Minima(s))
  {
    MinimaSound(s);
    MinimaComplete(s);
  }

  lemma MinimaSound(s: seq<real>)
    ensures OnlyMinima(s, Minima(s))
  {
    var m := Minima(s);
    if |s| > 2 {
      var c := Candidates(s, |s| - 1);
      CandidatesSound(s, |s| - 1);
      MinimaSameEntries(s);
      forall k | 0 <= k < |m| ensures IsLocalMin(s, m[k].index) && m[k].depth == Depth(s, m[k].index) {
        assert m[k] in m;
        assert m[k] in c;
      }
    }
  }

  lemma MinimaComplete(s: seq<real>)
    ensures AllMinima(s, Minima(s))
  {
    var m := Minima(s);
    if |s| > 2 {
      var c := Candidates(s, |s| - 1);
      CandidatesComplete(s, |s| - 1);
      MinimaSameEntries(s);
      forall i | IsLocalMin(s, i) ensures exists k :: 0 <= k < |m| && m[k].index == i {
        var k :| 0 <= k < |c| && c[k].index == i;
        assert c[k] in m;
        var k' :| 0 <= k' < |m| && m[k'] == c[k];
        assert m[k'].index == i;
      }
    }
  }

  /** Ranked by depth, deepest first, lower index first among equal depths;
      so no index appears twice. */
  lemma MinimaRanked(s: seq<real>)
    ensures Sorting.SortedDescThenRank(Minima(s), DepthKey, IndexOf)
    ensures forall k, l :: 0 <= k < l < |Minima(s)| ==> Minima(s)[k].index != Minima(s)[l].index
  {
    if |s| > 2 {
      var c := Candidates(s, |s| - 1);
      CandidatesExact(s, |s| - 1);
      forall i, j | 0 <= i < j < |c| ensures IndexOf(c[i]) < IndexOf(c[j]) {
      }
      assert Sorting.IncreasingRank(c, IndexOf);
      Sorting.SortDescStable(c, DepthKey, IndexOf);
      Sorting.SortDescDistinct(c, DepthKey, IndexOf);
      var m := Minima(s);
      forall k, l | 0 <= k < l < |m| ensures m[k].index != m[l].index {
        assert IndexOf(m[k]) != IndexOf(m[l]);
      }
    }
  }

  /** For non-negative curves every depth lies in [0, 1]. */
  lemma DepthRange(s: seq<real>, i: int)
    requires IsLocalMin(s, i)
    requires forall k :: 0 <= k < |s| ==> s[k] >= 0.0
    ensures 0.0 <= Depth(s, i) <= 1.0
  {
    var p := Peak(s, i);
    assert 0.0 <= s[i] <= p;
    RatioUnit(s[i], p);
  }

  lemma RatioUnit(v: real, p: real)
    requires p > 0.0 && 0.0 <= v <= p
    ensures 0.0 <= v / p <= 1.0
  {
  }

  /** The scan of `collect_minima` over the interior, in index order. */
  method ScanMinima(smoothed: seq<real>) returns (minima: seq<Minimum>)
    requires |smoothed| > 2
    ensures minima == Candidates(smoothed, |smoothed| - 1)
  {
    var n := |smoothed|;
    minima := [];
    for i := 1 to n - 1
      invariant minima == Candidates(smoothed, i)
    {
      if smoothed[i] > smoothed[i - 1] || smoothed[i] > smoothed[i + 1] {
        continue;
      }
      var leftPeak := MaxReal(smoothed[Max(0, i - 5)..i]);
      var rightPeak := MaxReal(smoothed[i + 1..Min(n, i + 6)]);
      var peak := RealMax(RealMax(leftPeak, rightPeak), Epsilon);
      var depth := 1.0 - smoothed[i] / peak;
      assert IsLocalMin(smoothed, i) && depth == Depth(smoothed, i);
      minima := minima + [Minimum(i, depth)];
    }
  }

  /** `collect_minima`: scans the interior for local minima, then sorts them. */
  method CollectMinima(smoothed: seq<real>) returns (minima: seq<Minimum>)
    ensures minima == Minima(smoothed)
    ensures |smoothed| <= 2 ==> minima == []
    ensures OnlyMinima(smoothed, minima) && AllMinima(smoothed, minima)
    ensures Sorting.SortedDescThenRank(minima, DepthKey, IndexOf)
  {
    MinimaExact(smoothed);
    MinimaRanked(smoothed);
    if |smoothed| <= 2 {
      return [];
    }
    var found := ScanMinima(smoothed);
    minima := Sorting.SortDesc(found, DepthKey);
  }
}

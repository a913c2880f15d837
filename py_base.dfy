/** Python built-in semantics the danmaku toolkit relies on: `range` with a
    positive step, slicing with a possibly negative bound, floor division,
    `sum` and `max` over lists. */
module PyBase {

  datatype Option<T> = None | Some(value: T)

  function Min(a: int, b: int): int { if a <= b then a else b }
  function Max(a: int, b: int): int { if a >= b then a else b }

  /** Python's `range(start, stop, step)` for a positive step: the values
      `start, start + step, ...` strictly below `stop`. */
  function Range(start: int, stop: int, step: int): (r: seq<int>)
    requires step > 0
    ensures r == [] <==> start >= stop
    ensures forall k :: 0 <= k < |r| ==> start <= r[k] < stop
    decreases stop - start
  {
    if start >= stop then [] else [start] + Range(start + step, stop, step)
  }

  /** `range` has `ceil((stop - start) / step)` elements, the `k`-th being
      `start + k * step`. */
  lemma {:induction false} RangeSpec(start: int, stop: int, step: int)
    requires step > 0
    ensures |Range(start, stop, step)| == if start < stop then (stop - start + step - 1) / step else 0
    ensures forall k :: 0 <= k < |Range(start, stop, step)| ==> Range(start, stop, step)[k] == start + k * step
    decreases stop - start
  {
    if start < stop {
      RangeSpec(start + step, stop, step);
      var r, rest := Range(start, stop, step), Range(start + step, stop, step);
      assert r == [start] + rest;
      if start + step < stop {
        DivShift(stop - start - 1, step);
      } else {
        DivUnique(stop - start + step - 1, step, 1, stop - start - 1);
      }
      forall k | 1 <= k < |r| ensures r[k] == start + k * step {
        assert r[k] == rest[k - 1] == start + step + (k - 1) * step;
      }
    }
  }

  /** A prefix grows by the next element. */
  lemma TakeOneMore<T>(s: seq<T>, w: int)
    requires 0 <= w < |s|
    ensures s[..w + 1] == s[..w] + [s[w]]
  {
  }

  /** (a + b) / b == a / b + 1 for a positive divisor. */
  lemma DivShift(a: int, b: int)
    requires b > 0
    ensures (a + b) / b == a / b + 1
  {
    DivUnique(a + b, b, a / b + 1, a % b);
  }

  /** Euclidean quotients are unique. */
  lemma DivUnique(x: int, b: int, q: int, m: int)
    requires b > 0 && 0 <= m < b && x == q * b + m
    ensures x / b == q
  {
    var q', m' := x / b, x % b;
    assert x == q' * b + m' && 0 <= m' < b;
    assert (q - q') * b == m' - m;
    if q > q' {
      MulAtLeast(q - q', b);
      assert false;
    } else if q < q' {
      MulAtLeast(q' - q, b);
      assert false;
    }
  }

  lemma MulAtLeast(x: int, b: int)
    requires x >= 1 && b > 0
    ensures x * b >= b
  {
  }

  /** Python's floor division `a // b` (Dafny's `/` is Euclidean and agrees
      with it only for a positive divisor). */
  function FloorDiv(a: int, b: int): (r: int)
    requires b != 0
    ensures b * r <= a < b * r + b || b * r + b < a <= b * r
  {
    if b > 0 then a / b else (-a) / (-b)
  }

  /** Python's `s[:k]`: a negative bound counts from the end. */
  function Prefix<T>(s: seq<T>, k: int): (r: seq<T>)
    ensures |r| == if k >= 0 then Min(k, |s|) else Max(0, |s| + k)
    ensures r == s[..|r|]
  {
    if k >= 0 then s[..Min(k, |s|)] else s[..Max(0, |s| + k)]
  }

  /** Where a slice bound `k` lands in a sequence of length `n`: a negative
      bound counts from the end, and the result is clamped to `[0, n]`. */
  function SliceIndex(n: nat, k: int): (r: nat)
    ensures r <= n
    ensures 0 <= k <= n ==> r == k
    ensures k < 0 && -k <= n ==> r == n + k
  {
    if k >= 0 then Min(k, n) else Max(0, n + k)
  }

  /** Python's `s[lo:hi]`: both bounds are placed by `SliceIndex`, and a
      start at or past the stop gives the empty list. */
  function Slice<T>(s: seq<T>, lo: int, hi: int): (r: seq<T>)
    ensures 0 <= lo <= hi <= |s| ==> r == s[lo..hi]
    ensures |r| <= |s|
    ensures forall k :: 0 <= k < |r| ==> r[k] in s
  {
    var a, b := SliceIndex(|s|, lo), SliceIndex(|s|, hi);
    if a < b then s[a..b] else []
  }

  /** `[line(i, x) for i, x in enumerate(xs, 1)]`, built the way a loop
      appends it. */
  function Enumerate<T, U>(xs: seq<T>, line: (int, T) -> U): (r: seq<U>)
    ensures |r| == |xs|
  {
    if xs == [] then [] else Enumerate(xs[..|xs| - 1], line) + [line(|xs|, xs[|xs| - 1])]
  }

  /** One more turn of the loop appends the next element's line. */
  lemma EnumerateSnoc<T, U>(xs: seq<T>, line: (int, T) -> U, i: nat)
    requires i < |xs|
    ensures Enumerate(xs[..i + 1], line) == Enumerate(xs[..i], line) + [line(i + 1, xs[i])]
  {
    assert xs[..i + 1][..i] == xs[..i];
  }

  /** Entry `k` is the line of element `k`, numbered `k + 1`. */
  lemma {:induction false} EnumerateAt<T, U>(xs: seq<T>, line: (int, T) -> U)
    ensures forall k :: 0 <= k < |xs| ==> Enumerate(xs, line)[k] == line(k + 1, xs[k])
  {
    if xs != [] {
      EnumerateAt(xs[..|xs| - 1], line);
    }
  }

  /** `Enumerate` for a line that also reads a shared context `ctx`. */
  function EnumerateWith<C, T, U>(ctx: C, xs: seq<T>, line: (C, int, T) -> U): (r: seq<U>)
    ensures |r| == |xs|
  {
    if xs == [] then [] else EnumerateWith(ctx, xs[..|xs| - 1], line) + [line(ctx, |xs|, xs[|xs| - 1])]
  }

  lemma EnumerateWithSnoc<C, T, U>(ctx: C, xs: seq<T>, line: (C, int, T) -> U, i: nat)
    requires i < |xs|
    ensures EnumerateWith(ctx, xs[..i + 1], line) == EnumerateWith(ctx, xs[..i], line) + [line(ctx, i + 1, xs[i])]
  {
    assert xs[..i + 1][..i] == xs[..i];
  }

  lemma {:induction false} EnumerateWithAt<C, T, U>(ctx: C, xs: seq<T>, line: (C, int, T) -> U)
    ensures forall k :: 0 <= k < |xs| ==> EnumerateWith(ctx, xs, line)[k] == line(ctx, k + 1, xs[k])
  {
    if xs != [] {
      EnumerateWithAt(ctx, xs[..|xs| - 1], line);
    }
  }

  /** Python's `sum` over a list of floats. */
  function SumReal(s: seq<real>): real
  {
    if s == [] then 0.0 else SumReal(s[..|s| - 1]) + s[|s| - 1]
  }

  /** Python's `max` over a non-empty list of floats. */
  function MaxReal(s: seq<real>): (r: real)
    requires |s| > 0
    ensures r in s
    ensures forall k :: 0 <= k < |s| ==> s[k] <= r
  {
    if |s| == 1 then s[0]
    else
      var m := MaxReal(s[..|s| - 1]);
      if m >= s[|s| - 1] then m else s[|s| - 1]
  }

  /** Python's `min` over a non-empty list of floats. */
  function MinReal(s: seq<real>): (r: real)
    requires |s| > 0
    ensures r in s
    ensures forall k :: 0 <= k < |s| ==> r <= s[k]
  {
    if |s| == 1 then s[0]
    else
      var m := MinReal(s[..|s| - 1]);
      if m <= s[|s| - 1] then m else s[|s| - 1]
  }

  function RealMax(a: real, b: real): real { if a >= b then a else b }

  /** A sum of values that all lie in [lo, hi] lies in [n*lo, n*hi]. */
  lemma {:induction false} SumRealBounds(s: seq<real>, lo: real, hi: real)
    requires forall k :: 0 <= k < |s| ==> lo <= s[k] <= hi
    ensures |s| as real * lo <= SumReal(s) <= |s| as real * hi
  {
    if s != [] {
      SumRealBounds(s[..|s| - 1], lo, hi);
    }
  }
}

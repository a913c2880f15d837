/** Python's stable `list.sort(key=lambda x: -key(x))` / `sorted(...)`:
    a permutation of the input in descending key order in which elements
    with equal keys keep their input order. Modelled as insertion sort,
    which has exactly that result. */
module Sorting {

  predicate SortedDesc<T>(s: seq<T>, key: T -> real)
  {
    forall i, j :: 0 <= i < j < |s| ==> key(s[i]) >= key(s[j])
  }

  /** Descending by key, and by ascending rank among equal keys. */
  predicate SortedDescThenRank<T>(s: seq<T>, key: T -> real, rank: T -> int)
  {
    forall i, j :: 0 <= i < j < |s| ==>
      key(s[i]) > key(s[j]) || (key(s[i]) == key(s[j]) && rank(s[i]) < rank(s[j]))
  }

  predicate IncreasingRank<T>(s: seq<T>, rank: T -> int)
  {
    forall i, j :: 0 <= i < j < |s| ==> rank(s[i]) < rank(s[j])
  }

  /** Puts `x` after every element whose key is at least `key(x)`. */
  function InsertDesc<T>(x: T, s: seq<T>, key: T -> real): (r: seq<T>)
    ensures |r| == |s| + 1
    ensures multiset(r) == multiset(s) + multiset{x}
    ensures forall k :: 0 <= k < |r| ==> r[k] == x || r[k] in s
  {
    if s == [] then [x]
    else if key(s[0]) >= key(x) then
      var t := InsertDesc(x, s[1..], key);
      assert s == [s[0]] + s[1..];
      [s[0]] + t
    else
      [x] + s
  }

  lemma {:induction false} InsertDescSorted<T>(x: T, s: seq<T>, key: T -> real)
    requires SortedDesc(s, key)
    ensures SortedDesc(InsertDesc(x, s, key), key)
  {
    if s != [] && key(s[0]) >= key(x) {
      InsertDescSorted(x, s[1..], key);
      var r := InsertDesc(x, s, key);
      forall j | 0 < j < |r| ensures key(r[0]) >= key(r[j]) {
        assert r[j] in InsertDesc(x, s[1..], key);
      }
    }
  }

  /** The stable descending sort. */
  function SortDesc<T>(s: seq<T>, key: T -> real): (r: seq<T>)
    ensures |r| == |s|
    ensures multiset(r) == multiset(s)
    ensures SortedDesc(r, key)
  {
    if s == [] then []
    else
      assert s == s[..|s| - 1] + [s[|s| - 1]];
      InsertDescSorted(s[|s| - 1], SortDesc(s[..|s| - 1], key), key);
      InsertDesc(s[|s| - 1], SortDesc(s[..|s| - 1], key), key)
  }

  lemma {:induction false} InsertDescThenRank<T>(x: T, s: seq<T>, key: T -> real, rank: T -> int)
    requires SortedDescThenRank(s, key, rank)
    requires forall y :: y in s ==> rank(y) < rank(x)
    ensures SortedDescThenRank(InsertDesc(x, s, key), key, rank)
  {
    if s != [] && key(s[0]) >= key(x) {
      InsertDescThenRank(x, s[1..], key, rank);
    }
  }

  /** Stability: when the input is in increasing rank order (its input
      order), equal keys come out in that order. */
  lemma {:induction false} SortDescStable<T>(s: seq<T>, key: T -> real, rank: T -> int)
    requires IncreasingRank(s, rank)
    ensures SortedDescThenRank(SortDesc(s, key), key, rank)
  {
    if s != [] {
      var init := s[..|s| - 1];
      SortDescStable(init, key, rank);
      assert forall y :: y in SortDesc(init, key) ==> y in multiset(init);
      InsertDescThenRank(s[|s| - 1], SortDesc(init, key), key, rank);
    }
  }

  ghost predicate DistinctBy<T, U>(s: seq<T>, f: T -> U)
  {
    forall i, j :: 0 <= i < j < |s| ==> f(s[i]) != f(s[j])
  }

  lemma {:induction false} InsertDescDistinct<T, U>(x: T, s: seq<T>, key: T -> real, f: T -> U)
    requires DistinctBy(s, f)
    requires forall y :: y in s ==> f(y) != f(x)
    ensures DistinctBy(InsertDesc(x, s, key), f)
  {
    if s != [] && key(s[0]) >= key(x) {
      InsertDescDistinct(x, s[1..], key, f);
    }
  }

  /** Sorting keeps a projection injective. */
  lemma {:induction false} SortDescDistinct<T, U>(s: seq<T>, key: T -> real, f: T -> U)
    requires DistinctBy(s, f)
    ensures DistinctBy(SortDesc(s, key), f)
  {
    if s != [] {
      var init := s[..|s| - 1];
      SortDescDistinct(init, key, f);
      assert forall y :: y in SortDesc(init, key) ==> y in multiset(init);
      InsertDescDistinct(s[|s| - 1], SortDesc(init, key), key, f);
    }
  }

  function SumBy<T>(s: seq<T>, f: T -> int): int
  {
    if s == [] then 0 else SumBy(s[..|s| - 1], f) + f(s[|s| - 1])
  }

  lemma {:induction false} SumByAppend<T>(a: seq<T>, b: seq<T>, f: T -> int)
    ensures SumBy(a + b, f) == SumBy(a, f) + SumBy(b, f)
    decreases |b|
  {
    if b == [] {
      assert a + b == a;
    } else {
      assert (a + b)[..|a + b| - 1] == a + b[..|b| - 1];
      SumByAppend(a, b[..|b| - 1], f);
    }
  }

  lemma {:induction false} InsertDescSum<T>(x: T, s: seq<T>, key: T -> real, f: T -> int)
    ensures SumBy(InsertDesc(x, s, key), f) == SumBy(s, f) + f(x)
  {
    if s == [] {
      assert SumBy([x], f) == SumBy([], f) + f(x);
    } else if key(s[0]) >= key(x) {
      InsertDescSum(x, s[1..], key, f);
      SumByAppend([s[0]], InsertDesc(x, s[1..], key), f);
      SumByAppend([s[0]], s[1..], f);
      assert s == [s[0]] + s[1..];
    } else {
      SumByAppend([x], s, f);
      assert SumBy([x], f) == SumBy([], f) + f(x);
    }
  }

  /** Sorting does not change a sum over the elements. */
  lemma {:induction false} SortDescSum<T>(s: seq<T>, key: T -> real, f: T -> int)
    ensures SumBy(SortDesc(s, key), f) == SumBy(s, f)
  {
    if s != [] {
      SortDescSum(s[..|s| - 1], key, f);
      InsertDescSum(s[|s| - 1], SortDesc(s[..|s| - 1], key), key, f);
    }
  }

  predicate StrictlyIncreasing(s: seq<int>)
  {
    forall i, j :: 0 <= i < j < |s| ==> s[i] < s[j]
  }

  /** Inserts `x` before the first larger element. */
  function InsertAsc(x: int, s: seq<int>): (r: seq<int>)
    ensures |r| == |s| + 1
    ensures forall y :: y in r <==> y == x || y in s
  {
    if s == [] || x < s[0] then [x] + s
    else
      assert forall y :: y in s <==> y == s[0] || y in s[1..];
      [s[0]] + InsertAsc(x, s[1..])
  }

  /** Inserting a missing element keeps a sequence strictly increasing. */
  lemma {:induction false} InsertAscSorted(x: int, s: seq<int>)
    requires StrictlyIncreasing(s) && x !in s
    ensures StrictlyIncreasing(InsertAsc(x, s))
  {
    if s != [] && x >= s[0] {
      assert x != s[0];
      InsertAscSorted(x, s[1..]);
      var t := InsertAsc(x, s[1..]);
      assert forall k :: 0 <= k < |t| ==> s[0] < t[k] by {
        forall k | 0 <= k < |t| ensures s[0] < t[k] {
          assert t[k] in t;
          if t[k] != x {
            var j :| 0 <= j < |s[1..]| && s[1..][j] == t[k];
            assert s[j + 1] == t[k];
          }
        }
      }
    }
  }

  /** Python's `sorted(xs)` on distinct integers: strictly increasing, same elements. */
  function SortAsc(s: seq<int>): (r: seq<int>)
    requires forall i, j :: 0 <= i < j < |s| ==> s[i] != s[j]
    ensures |r| == |s| && StrictlyIncreasing(r)
    ensures forall y :: y in r <==> y in s
  {
    if s == [] then []
    else
      var init := s[..|s| - 1];
      assert forall y :: y in s <==> y == s[|s| - 1] || y in init;
      InsertAscSorted(s[|s| - 1], SortAsc(init));
      InsertAsc(s[|s| - 1], SortAsc(init))
  }
}

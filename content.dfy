/** Topic-change detection from message content (`_internal/content.py`):
    character n-grams, Jaccard similarity, and the split point of a
    segment where adjacent analysis windows share the fewest bigrams. */
module Content {
  import opened PyBase
  import opened Density

  // ------------------------------------------------------------- n-grams

  /** `t[i:i+n]` */
  function Gram(t: string, i: int, n: nat): string
    requires 0 <= i <= |t| - n
  {
    t[i..i + n]
  }

  /** The length-`n` substrings of `t`: `{t[i:i+n] for i in range(len(t) - n + 1)}`. */
  function NGrams(t: string, n: nat): (r: set<string>)
    ensures forall g :: g in r ==> |g| == n
  {
    set i | 0 <= i <= |t| - n :: Gram(t, i, n)
  }

  /** A string is an n-gram of `t` exactly when it occurs in `t` at some position. */
  lemma NGramsMember(t: string, n: nat, g: string)
    ensures g in NGrams(t, n) <==> exists i :: 0 <= i <= |t| - n && g == Gram(t, i, n)
  {
  }

  /** The union of the bigram sets of all texts. */
  function Bigrams(texts: seq<string>): set<string>
  {
    if texts == [] then {} else Bigrams(texts[..|texts| - 1]) + NGrams(texts[|texts| - 1], 2)
  }

  /** A bigram of the whole list is a bigram of one of its texts, and conversely. */
  lemma {:induction false} BigramsMember(texts: seq<string>, g: string)
    ensures g in Bigrams(texts) <==> exists j :: 0 <= j < |texts| && g in NGrams(texts[j], 2)
  {
    if texts != [] {
      var init := texts[..|texts| - 1];
      BigramsMember(init, g);
      if g in Bigrams(texts) && g !in NGrams(texts[|texts| - 1], 2) {
        var j :| 0 <= j < |init| && g in NGrams(init[j], 2);
        assert texts[j] == init[j];
      }
      if exists j :: 0 <= j < |texts| && g in NGrams(texts[j], 2) {
        var j :| 0 <= j < |texts| && g in NGrams(texts[j], 2);
        if j < |init| {
          assert init[j] == texts[j];
        }
      }
    }
  }

  /** `text_bigrams`: every two-character substring of every text. */
  method TextBigrams(texts: seq<string>) returns (grams: set<string>)
    ensures grams == Bigrams(texts)
  {
    grams := {};
    for j := 0 to |texts|
      invariant grams == Bigrams(texts[..j])
    {
      var t := texts[j];
      ghost var before := grams;
      for i := 0 to Max(0, |t| - 1)
        invariant grams == before + set p | 0 <= p < i :: Gram(t, p, 2)
      {
        assert (set p | 0 <= p < i + 1 :: Gram(t, p, 2)) == (set p | 0 <= p < i :: Gram(t, p, 2)) + {Gram(t, i, 2)};
        grams := grams + {t[i..i + 2]};
      }
      assert (set p | 0 <= p < Max(0, |t| - 1) :: Gram(t, p, 2)) == NGrams(t, 2);
      assert texts[..j + 1][..j] == texts[..j];
    }
    assert texts[..|texts|] == texts;
  }

  // ------------------------------------------------------------- jaccard

  /** `jaccard`: |a ∩ b| / |a ∪ b|, and 1.0 when both sets are empty. */
  function Jaccard(a: set<string>, b: set<string>): (r: real)
    ensures 0.0 <= r <= 1.0
  {
    if a == {} && b == {} then 1.0
    else
      var u := |a + b|;
      assert |a * b| <= u by { SubsetCard(a * b, a + b); }
      if u != 0 then |a * b| as real / u as real else 1.0
  }

  lemma SubsetCard(a: set<string>, b: set<string>)
    requires a <= b
    ensures |a| <= |b|
  {
    assert b == a + (b - a);
  }

  /** Similarity does not depend on the order of the arguments. */
  lemma JaccardSymmetric(a: set<string>, b: set<string>)
    ensures Jaccard(a, b) == Jaccard(b, a)
  {
    assert a * b == b * a && a + b == b + a;
  }

  /** Similarity is 1.0 exactly for equal sets. */
  lemma JaccardOne(a: set<string>, b: set<string>)
    ensures Jaccard(a, b) == 1.0 <==> a == b
  {
    if a == b {
      JaccardSelf(a);
    } else {
      JaccardBelowOne(a, b);
    }
  }

  lemma JaccardSelf(a: set<string>)
    ensures Jaccard(a, a) == 1.0
  {
    if a != {} {
      assert a * a == a && a + a == a;
      RatioOne(|a|);
    }
  }

  lemma JaccardBelowOne(a: set<string>, b: set<string>)
    requires a != b
    ensures Jaccard(a, b) < 1.0
  {
    var x :| (x in a && x !in b) || (x in b && x !in a);
    var i, u := a * b, a + b;
    assert x in u && x !in i;
    assert u == i + (u - i);
    assert |u - i| >= 1;
    assert a + b != {};
    RatioBelowOne(|i|, |u|);
  }

  lemma RatioOne(p: nat)
    requires p > 0
    ensures (p as real) / (p as real) == 1.0
  {
  }

  lemma RatioBelowOne(p: nat, q: nat)
    requires p < q
    ensures (p as real) / (q as real) < 1.0
  {
  }

  /** Disjoint sets, at least one of them non-empty, have similarity 0. */
  lemma JaccardDisjoint(a: set<string>, b: set<string>)
    requires a * b == {} && (a != {} || b != {})
    ensures Jaccard(a, b) == 0.0
  {
    if a != {} { var x :| x in a; assert x in a + b; } else { var x :| x in b; assert x in a + b; }
  }

  // --------------------------------------------------- content_split_point

  /** An analysis window: its start time and the bigrams of its messages. */
  datatype Window = Window(start: int, grams: set<string>)

  /** All texts of the buckets at the listed start times, in order. */
  function Gather(buckets: Buckets, ts: seq<int>): seq<string>
  {
    if ts == [] then [] else Gather(buckets, ts[..|ts| - 1]) + BucketAt(buckets, ts[|ts| - 1])
  }

  /** The window starting at `start`: buckets `start, start + bucketSec, ...`
      below `min(start + width, segEnd)`. */
  function WindowAt(buckets: Buckets, bucketSec: int, segEnd: int, width: int, start: int): Window
    requires bucketSec > 0
  {
    Window(start, Bigrams(Gather(buckets, Range(start, Min(start + width, segEnd), bucketSec))))
  }

  /** The windows at `segStart, segStart + width, ...` below `segEnd`. */
  function Windows(buckets: Buckets, bucketSec: int, segStart: int, segEnd: int, width: int): (r: seq<Window>)
    requires bucketSec > 0 && width > 0
    ensures |r| == |Range(segStart, segEnd, width)|
    decreases segEnd - segStart
  {
    if segStart >= segEnd then []
    else [WindowAt(buckets, bucketSec, segEnd, width, segStart)] + Windows(buckets, bucketSec, segStart + width, segEnd, width)
  }

  /** Window `j` is the window at the `j`-th analysis start. */
  lemma {:induction false} WindowsAt(buckets: Buckets, bucketSec: int, segStart: int, segEnd: int, width: int)
    requires bucketSec > 0 && width > 0
    ensures forall j :: 0 <= j < |Windows(buckets, bucketSec, segStart, segEnd, width)| ==>
      Windows(buckets, bucketSec, segStart, segEnd, width)[j]
        == WindowAt(buckets, bucketSec, segEnd, width, Range(segStart, segEnd, width)[j])
    decreases segEnd - segStart
  {
    if segStart < segEnd {
      var rest := Windows(buckets, bucketSec, segStart + width, segEnd, width);
      var restStarts := Range(segStart + width, segEnd, width);
      WindowsAt(buckets, bucketSec, segStart + width, segEnd, width);
      var ws := Windows(buckets, bucketSec, segStart, segEnd, width);
      var starts := Range(segStart, segEnd, width);
      assert ws == [WindowAt(buckets, bucketSec, segEnd, width, segStart)] + rest;
      assert starts == [segStart] + restStarts;
      forall j | 1 <= j < |ws| ensures ws[j] == WindowAt(buckets, bucketSec, segEnd, width, starts[j]) {
        assert ws[j] == rest[j - 1];
        assert starts[j] == restStarts[j - 1];
      }
    }
  }

  lemma WindowAtIndex(buckets: Buckets, bucketSec: int, segStart: int, segEnd: int, width: int, j: int)
    requires bucketSec > 0 && width > 0
    requires 0 <= j < |Range(segStart, segEnd, width)|
    ensures Windows(buckets, bucketSec, segStart, segEnd, width)[j]
      == WindowAt(buckets, bucketSec, segEnd, width, Range(segStart, segEnd, width)[j])
  {
    WindowsAt(buckets, bucketSec, segStart, segEnd, width);
  }

  /** The best split found so far: a start time (or none) and its topic change. */
  datatype Split = Split(pos: Option<int>, change: real)

  /** Topic change between window `j - 1` and window `j`. */
  function Change(ws: seq<Window>, j: int): real
    requires 1 <= j < |ws|
  {
    1.0 - Jaccard(ws[j - 1].grams, ws[j].grams)
  }

  /** Window `j` starts strictly between `lo` and `hi`. */
  predicate Eligible(ws: seq<Window>, lo: int, hi: int, j: int)
    requires 0 <= j < |ws|
  {
    lo < ws[j].start < hi
  }

  /** The scan over windows `1 .. i-1`: a window replaces the current best
      only with a strictly larger change. */
  function BestUpTo(ws: seq<Window>, lo: int, hi: int, i: int): Split
    requires i <= |ws|
  {
    if i <= 1 then Split(None, 0.0)
    else
      var prev := BestUpTo(ws, lo, hi, i - 1);
      if Eligible(ws, lo, hi, i - 1) && Change(ws, i - 1) > prev.change
      then Split(Some(ws[i - 1].start), Change(ws, i - 1))
      else prev
  }

  /** `content_split_point`: nothing unless there are at least three windows. */
  function ContentSplit(buckets: Buckets, bucketSec: int, segStart: int, segEnd: int,
                        minMargin: int, width: int): Split
    requires bucketSec > 0 && width > 0
  {
    SplitOf(Windows(buckets, bucketSec, segStart, segEnd, width), segStart + minMargin, segEnd - minMargin)
  }

  /** The split chosen among given windows: nothing unless there are at
      least three, else the scan over all of them. */
  function SplitOf(ws: seq<Window>, lo: int, hi: int): Split
  {
    if |ws| < 3 then Split(None, 0.0) else BestUpTo(ws, lo, hi, |ws|)
  }

  /** `m` is at least the change of every eligible window in `1 .. i-1`. */
  ghost predicate Dominates(ws: seq<Window>, lo: int, hi: int, i: int, m: real)
    requires i <= |ws|
  {
    forall j :: 1 <= j < i && Eligible(ws, lo, hi, j) ==> Change(ws, j) <= m
  }

  /** Window `j` is the earliest eligible window in `1 .. i-1` whose change is `m`. */
  ghost predicate FirstAttains(ws: seq<Window>, lo: int, hi: int, i: int, j: int, m: real)
    requires i <= |ws|
  {
    1 <= j < i && Eligible(ws, lo, hi, j) && Change(ws, j) == m
    && forall j' :: 1 <= j' < j && Eligible(ws, lo, hi, j') ==> Change(ws, j') < m
  }

  /** The scan yields the maximum change over eligible windows, in [0, 1];
      a position is reported exactly when that maximum is positive, and it
      is the start of the earliest eligible window attaining it. */
  lemma {:induction false} BestUpToSpec(ws: seq<Window>, lo: int, hi: int, i: int)
    requires i <= |ws|
    ensures 0.0 <= BestUpTo(ws, lo, hi, i).change <= 1.0
    ensures BestUpTo(ws, lo, hi, i).pos.None? <==> BestUpTo(ws, lo, hi, i).change == 0.0
    ensures Dominates(ws, lo, hi, i, BestUpTo(ws, lo, hi, i).change)
    ensures BestUpTo(ws, lo, hi, i).pos.Some? ==>
      exists j :: FirstAttains(ws, lo, hi, i, j, BestUpTo(ws, lo, hi, i).change)
              && ws[j].start == BestUpTo(ws, lo, hi, i).pos.value
  {
    if i > 1 {
      BestUpToSpec(ws, lo, hi, i - 1);
      var prev := BestUpTo(ws, lo, hi, i - 1);
      if Eligible(ws, lo, hi, i - 1) && Change(ws, i - 1) > prev.change {
        assert FirstAttains(ws, lo, hi, i, i - 1, Change(ws, i - 1));
      } else if prev.pos.Some? {
        var j :| FirstAttains(ws, lo, hi, i - 1, j, prev.change) && ws[j].start == prev.pos.value;
        assert FirstAttains(ws, lo, hi, i, j, prev.change);
      }
    }
  }

  /** A reported position is the start of a window other than the first,
      strictly inside the margins. */
  ghost predicate InsideMargins(r: Split, segStart: int, segEnd: int, minMargin: int, width: int)
    requires width > 0
  {
    r.pos.Some? ==>
      && segStart + minMargin < r.pos.value < segEnd - minMargin
      && r.pos.value in Range(segStart, segEnd, width) && r.pos.value > segStart
  }

  /** The change lies in [0, 1] and is 0 exactly when no position is reported. */
  ghost predicate ChangeInUnit(r: Split)
  {
    0.0 <= r.change <= 1.0 && (r.pos.None? <==> r.change == 0.0)
  }

  /** What `content_split_point` returns: a change in [0, 1] that is the
      largest topic change over eligible windows, reported with the start of
      the earliest window attaining it, strictly inside the margins. */
  lemma ContentSplitSpec(buckets: Buckets, bucketSec: int, segStart: int, segEnd: int,
                         minMargin: int, width: int)
    requires bucketSec > 0 && width > 0
    ensures ChangeInUnit(ContentSplit(buckets, bucketSec, segStart, segEnd, minMargin, width))
    ensures InsideMargins(ContentSplit(buckets, bucketSec, segStart, segEnd, minMargin, width),
                          segStart, segEnd, minMargin, width)
    ensures |Windows(buckets, bucketSec, segStart, segEnd, width)| >= 3 ==>
      Dominates(Windows(buckets, bucketSec, segStart, segEnd, width), segStart + minMargin, segEnd - minMargin,
                |Windows(buckets, bucketSec, segStart, segEnd, width)|,
                ContentSplit(buckets, bucketSec, segStart, segEnd, minMargin, width).change)
  {
    var ws := Windows(buckets, bucketSec, segStart, segEnd, width);
    var r := ContentSplit(buckets, bucketSec, segStart, segEnd, minMargin, width);
    var lo, hi := segStart + minMargin, segEnd - minMargin;
    assert r == SplitOf(ws, lo, hi);
    if |ws| >= 3 {
      BestUpToSpec(ws, lo, hi, |ws|);
      assert r == BestUpTo(ws, lo, hi, |ws|);
      if r.pos.Some? {
        var j :| FirstAttains(ws, lo, hi, |ws|, j, r.change) && ws[j].start == r.pos.value;
        var starts := Range(segStart, segEnd, width);
        WindowsAt(buckets, bucketSec, segStart, segEnd, width);
        assert ws[j].start == starts[j];
      }
    }
  }

  /** Fewer than three windows, i.e. a segment no longer than two analysis
      windows, never yields a split. */
  lemma ContentSplitShort(buckets: Buckets, bucketSec: int, segStart: int, segEnd: int,
                          minMargin: int, width: int)
    requires bucketSec > 0 && width > 0
    requires segEnd - segStart <= 2 * width
    ensures ContentSplit(buckets, bucketSec, segStart, segEnd, minMargin, width) == Split(None, 0.0)
  {
    var n := |Range(segStart, segEnd, width)|;
    RangeSpec(segStart, segEnd, width);
    if segStart < segEnd {
      assert segEnd - segStart + width - 1 < 3 * width;
      if n >= 3 {
        MulAtLeast3(n, width);
        assert false;
      }
    }
  }

  lemma MulAtLeast3(n: int, w: int)
    requires n >= 3 && w > 0
    ensures n * w >= 3 * w
  {
  }

  /** `for t in range(start, end, bucket_sec): texts.extend(buckets.get(t, []))` */
  method GatherTexts(buckets: Buckets, ts: seq<int>) returns (texts: seq<string>)
    ensures texts == Gather(buckets, ts)
  {
    texts := [];
    for k := 0 to |ts|
      invariant texts == Gather(buckets, ts[..k])
    {
      assert ts[..k + 1][..k] == ts[..k];
      texts := texts + BucketAt(buckets, ts[k]);
    }
    assert ts[..|ts|] == ts;
  }

  /** One window: the bigrams of the texts of its buckets. */
  method MakeWindow(buckets: Buckets, bucketSec: int, segEnd: int, analysisWindow: int, start: int)
    returns (window: Window)
    requires bucketSec > 0
    ensures window == WindowAt(buckets, bucketSec, segEnd, analysisWindow, start)
  {
    var end := Min(start + analysisWindow, segEnd);
    var texts := GatherTexts(buckets, Range(start, end, bucketSec));
    var grams := TextBigrams(texts);
    window := Window(start, grams);
  }

  /** The first loop of `content_split_point`: one window per analysis
      start, holding the bigrams of the messages of its buckets. */
  method BuildWindows(buckets: Buckets, bucketSec: int, segStart: int, segEnd: int, analysisWindow: int)
    returns (windows: seq<Window>)
    requires bucketSec > 0 && analysisWindow > 0
    ensures windows == Windows(buckets, bucketSec, segStart, segEnd, analysisWindow)
  {
    var starts := Range(segStart, segEnd, analysisWindow);
    ghost var spec := Windows(buckets, bucketSec, segStart, segEnd, analysisWindow);
    windows := [];
    for w := 0 to |starts|
      invariant windows == spec[..w]
    {
      var window := MakeWindow(buckets, bucketSec, segEnd, analysisWindow, starts[w]);
      WindowAtIndex(buckets, bucketSec, segStart, segEnd, analysisWindow, w);
      assert spec[w] == window;
      TakeOneMore(spec, w);
      windows := windows + [window];
    }
    assert spec[..|starts|] == spec;
  }

  /** The second loop of `content_split_point`: over windows `1 ..`, keep
      a window strictly inside `(lo, hi)` whose change beats the best so far. */
  method ScanWindows(windows: seq<Window>, lo: int, hi: int) returns (bestPos: Option<int>, maxChange: real)
    ensures Split(bestPos, maxChange) == BestUpTo(windows, lo, hi, |windows|)
  {
    bestPos, maxChange := None, 0.0;
    if |windows| == 0 {
      return;
    }
    for i := 1 to |windows|
      invariant Split(bestPos, maxChange) == BestUpTo(windows, lo, hi, i)
    {
      var pos := windows[i].start;
      if pos <= lo || pos >= hi {
        continue;
      }
      var change := 1.0 - Jaccard(windows[i - 1].grams, windows[i].grams);
      if change > maxChange {
        maxChange := change;
        bestPos := Some(pos);
      }
    }
  }

  /** `content_split_point`: builds the windows, then keeps the first
      eligible window with the largest topic change. */
  method ContentSplitPoint(buckets: Buckets, bucketSec: int, segStart: int, segEnd: int,
                           minMargin: int, analysisWindow: int)
    returns (bestPos: Option<int>, maxChange: real)
    requires bucketSec > 0 && analysisWindow > 0
    ensures Split(bestPos, maxChange) == ContentSplit(buckets, bucketSec, segStart, segEnd, minMargin, analysisWindow)
  {
    var windows := BuildWindows(buckets, bucketSec, segStart, segEnd, analysisWindow);
    var lo, hi := segStart + minMargin, segEnd - minMargin;
    assert ContentSplit(buckets, bucketSec, segStart, segEnd, minMargin, analysisWindow) == SplitOf(windows, lo, hi);
    if |windows| < 3 {
      return None, 0.0;
    }
    bestPos, maxChange := ScanWindows(windows, lo, hi);
  }
}

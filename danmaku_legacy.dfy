/** The older tools of `danmaku.py`: the numbered listing of
    `get_danmakus`, and `analyze_danmaku_density`, which puts the messages
    into fixed buckets of `window_sec` seconds, ranks the buckets by size
    and lists the densest with a few sample texts. The messages are the
    already fetched `(whole-second time, text)` pairs. */
module DanmakuLegacy {
  import opened PyBase
  import opened PyStr
  import opened Sorting
  import DanmakuUtils
  import DanmakuTools

  type Danmaku = DanmakuTools.Danmaku

  // ------------------------------------------------------------ get_danmakus

  /** `limit` outside `(0, 500]` becomes 100. */
  function ClampLimit(limit: int): (r: int)
    ensures 0 < r <= 500
    ensures 0 < limit <= 500 ==> r == limit
    ensures !(0 < limit <= 500) ==> r == 100
  {
    if limit <= 0 || limit > 500 then 100 else limit
  }

  /** `s[:n]`, followed by `...` when `s` is longer than `n`. */
  function Truncate(s: string, n: nat): string
  {
    Prefix(s, n) + (if |s| > n then "..." else "")
  }

  /** A short text is kept whole; a long one keeps its first `n` characters
      and gets `...`. */
  lemma TruncateShape(s: string, n: nat)
    ensures |Truncate(s, n)| <= n + 3
    ensures |s| <= n ==> Truncate(s, n) == s
    ensures |s| > n ==> |Truncate(s, n)| == n + 3 && Truncate(s, n)[..n] == s[..n] && Truncate(s, n)[n..] == "..."
  {
    if |s| > n {
      assert Truncate(s, n) == s[..n] + "...";
    } else {
      assert s[..|s|] == s;
    }
  }

  /** Truncating a single line keeps it a single line. */
  lemma TruncateOneLine(s: string, n: nat)
    requires '\n' !in s
    ensures '\n' !in Truncate(s, n)
  {
    var p := Prefix(s, n);
    assert forall k :: 0 <= k < |p| ==> p[k] == s[k];
  }

  /** `dm.text.strip().replace("\n", " ")` */
  function OneLineText(text: string): (r: string)
    ensures |r| <= |text| && '\n' !in r
  {
    var t := ReplaceChar(Strip(text), '\n', ' ');
    assert forall k :: 0 <= k < |t| ==> t[k] != '\n';
    t
  }

  /** `f"{i}. [{m:02d}:{s:02d}] {text[:80]}..."` */
  function ListingLine(i: int, d: Danmaku): string
  {
    IntToStr(i) + ". [" + DanmakuUtils.FmtTs(d.time) + "] " + Truncate(OneLineText(d.text), 80)
  }

  /** The head line: how many are shown, and the total when not all are. */
  function ListingHead(bvid: string, total: int, limit: int): string
  {
    "弹幕（" + bvid + "，前" + IntToStr(Min(limit, total)) + "条"
      + (if total > limit then "，共" + IntToStr(total) + "条" else "") + "）:"
  }

  /** What `get_danmakus` returns for fetched messages: the head line, then
      the listing lines. */
  function Listing(bvid: string, danmakus: seq<Danmaku>, limit: int): string
  {
    var lines := Enumerate(Prefix(danmakus, ClampLimit(limit)), ListingLine);
    if lines == [] then "暂无弹幕。" else Join([ListingHead(bvid, |danmakus|, ClampLimit(limit))] + lines, "\n")
  }

  /** The listing loop of `get_danmakus`. */
  method ListDanmakus(bvid: string, danmakus: seq<Danmaku>, limit: int) returns (out: string)
    ensures out == Listing(bvid, danmakus, limit)
  {
    var lim := ClampLimit(limit);
    var shown := Prefix(danmakus, lim);
    var lines: seq<string> := [];
    var i := 0;
    while i < |shown|
      invariant 0 <= i <= |shown|
      invariant lines == Enumerate(shown[..i], ListingLine)
    {
      EnumerateSnoc(shown, ListingLine, i);
      lines := lines + [ListingLine(i + 1, shown[i])];
      i := i + 1;
    }
    assert shown[..i] == shown;
    if lines == [] {
      return "暂无弹幕。";
    }
    out := Join([ListingHead(bvid, |danmakus|, lim)] + lines, "\n");
  }

  lemma ListingLineOneLine(i: int, d: Danmaku)
    ensures '\n' !in ListingLine(i, d)
  {
    var num, ts, text := IntToStr(i), DanmakuUtils.FmtTs(d.time), Truncate(OneLineText(d.text), 80);
    IntToStrOneLine(i);
    DanmakuUtils.FmtTsOneLine(d.time);
    TruncateOneLine(OneLineText(d.text), 80);
    ConcatExcludes('\n', num, ". [");
    ConcatExcludes('\n', num + ". [", ts);
    ConcatExcludes('\n', num + ". [" + ts, "] ");
    ConcatExcludes('\n', num + ". [" + ts + "] ", text);
  }

  lemma ListingHeadOneLine(bvid: string, total: int, limit: int)
    requires '\n' !in bvid
    ensures '\n' !in ListingHead(bvid, total, limit)
  {
    var shown, all := IntToStr(Min(limit, total)), IntToStr(total);
    IntToStrOneLine(Min(limit, total));
    IntToStrOneLine(total);
    var more := if total > limit then "，共" + all + "条" else "";
    ConcatExcludes('\n', "，共", all);
    ConcatExcludes('\n', "，共" + all, "条");
    ConcatExcludes('\n', "弹幕（", bvid);
    ConcatExcludes('\n', "弹幕（" + bvid, "，前");
    ConcatExcludes('\n', "弹幕（" + bvid + "，前", shown);
    ConcatExcludes('\n', "弹幕（" + bvid + "，前" + shown, "条");
    ConcatExcludes('\n', "弹幕（" + bvid + "，前" + shown + "条", more);
    ConcatExcludes('\n', "弹幕（" + bvid + "，前" + shown + "条" + more, "）:");
  }

  /** A head line followed by numbered single lines reads back, line by
      line, as the head and then line `k` for element `k`. */
  lemma NumberedListing<T>(head: string, xs: seq<T>, line: (int, T) -> string)
    requires '\n' !in head
    requires forall k :: 0 <= k < |xs| ==> '\n' !in line(k + 1, xs[k])
    ensures var out := Split(Join([head] + Enumerate(xs, line), "\n"), '\n');
      && |out| == 1 + |xs| && out[0] == head
      && forall k :: 1 <= k < |out| ==> out[k] == line(k, xs[k - 1])
  {
    EnumerateAt(xs, line);
    HeadThenLines(head, Enumerate(xs, line));
  }

  /** `NumberedListing` for lines that read a shared context. */
  lemma NumberedListingWith<C, T>(head: string, ctx: C, xs: seq<T>, line: (C, int, T) -> string)
    requires '\n' !in head
    requires forall k :: 0 <= k < |xs| ==> '\n' !in line(ctx, k + 1, xs[k])
    ensures var out := Split(Join([head] + EnumerateWith(ctx, xs, line), "\n"), '\n');
      && |out| == 1 + |xs| && out[0] == head
      && forall k :: 1 <= k < |out| ==> out[k] == line(ctx, k, xs[k - 1])
  {
    EnumerateWithAt(ctx, xs, line);
    HeadThenLines(head, EnumerateWith(ctx, xs, line));
  }

  /** With messages, the listing is the head line and then one line per
      message among the first `limit`, numbered from 1; with none, the
      placeholder. */
  lemma ListingShape(bvid: string, danmakus: seq<Danmaku>, limit: int)
    requires '\n' !in bvid
    ensures danmakus == [] ==> Listing(bvid, danmakus, limit) == "暂无弹幕。"
    ensures danmakus != [] ==>
      var lines := Split(Listing(bvid, danmakus, limit), '\n');
      && |lines| == 1 + Min(ClampLimit(limit), |danmakus|)
      && lines[0] == ListingHead(bvid, |danmakus|, ClampLimit(limit))
      && forall k :: 1 <= k < |lines| ==> lines[k] == ListingLine(k, danmakus[k - 1])
  {
    if danmakus != [] {
      var lim := ClampLimit(limit);
      var shown := Prefix(danmakus, lim);
      ListingHeadOneLine(bvid, |danmakus|, lim);
      forall k | 0 <= k < |shown| ensures '\n' !in ListingLine(k + 1, shown[k]) {
        ListingLineOneLine(k + 1, shown[k]);
      }
      NumberedListing(ListingHead(bvid, |danmakus|, lim), shown, ListingLine);
      assert |shown| == Min(lim, |danmakus|) && shown != [];
      assert Listing(bvid, danmakus, limit) == Join([ListingHead(bvid, |danmakus|, lim)] + Enumerate(shown, ListingLine), "\n");
    }
  }

  // ---------------------------------------------------- analyze_danmaku_density

  /** `window_sec < 30` becomes 60. */
  function ClampWindow(window: int): (r: int)
    ensures r >= 30
    ensures window >= 30 ==> r == window
    ensures window < 30 ==> r == 60
  {
    if window < 30 then 60 else window
  }

  /** `top_n` outside `[1, 20]` becomes 5. */
  function ClampTop(topN: int): (r: int)
    ensures 1 <= r <= 20
    ensures 1 <= topN <= 20 ==> r == topN
    ensures !(1 <= topN <= 20) ==> r == 5
  {
    if topN < 1 || topN > 20 then 5 else topN
  }

  /** `t // window_sec * window_sec`: the multiple of the window at or just
      below `t`. */
  function BucketOf(time: int, window: int): (b: int)
    requires window > 0
    ensures b % window == 0 && b <= time < b + window
  {
    var q := time / window;
    assert (q * window) % window == 0 by {
      DivUnique(q * window, window, q, 0);
    }
    q * window
  }

  /** The bucket of a time is the only multiple of the window whose span
      holds it. */
  lemma BucketOfUnique(time: int, window: int, b: int)
    requires window > 0 && b % window == 0
    ensures BucketOf(time, window) == b <==> b <= time < b + window
  {
    if b <= time < b + window {
      DivUnique(time, window, b / window, time - b);
    }
  }

  /** The buckets after the messages `ds`: `buckets[b].append(text)` for
      each message whose cleaned text is non-empty. The tool cleans with
      `DanmakuTools.Clip`; the grouping is stated for any cleaning `clean`. */
  function Buckets(ds: seq<Danmaku>, window: int, clean: string -> string): map<int, seq<string>>
    requires window > 0
  {
    if ds == [] then map[]
    else
      var m := Buckets(ds[..|ds| - 1], window, clean);
      var d := ds[|ds| - 1];
      var text := clean(d.text);
      if text == [] then m
      else
        var b := BucketOf(d.time, window);
        if b in m then m[b := m[b] + [text]] else m[b := [text]]
  }

  /** The bucket starts in the order the dictionary first saw them. */
  function BucketKeys(ds: seq<Danmaku>, window: int, clean: string -> string): (r: seq<int>)
    requires window > 0
    ensures forall b :: b in r <==> b in Buckets(ds, window, clean)
    ensures forall i, j :: 0 <= i < j < |r| ==> r[i] != r[j]
  {
    if ds == [] then []
    else
      var keys := BucketKeys(ds[..|ds| - 1], window, clean);
      var d := ds[|ds| - 1];
      var b := BucketOf(d.time, window);
      if clean(d.text) == [] || b in Buckets(ds[..|ds| - 1], window, clean) then keys else keys + [b]
  }

  /** Every bucket starts at a multiple of the window and is non-empty. */
  lemma {:induction false} BucketAligned(ds: seq<Danmaku>, window: int, clean: string -> string, b: int)
    requires window > 0 && b in Buckets(ds, window, clean)
    ensures b % window == 0 && Buckets(ds, window, clean)[b] != []
  {
    var init := ds[..|ds| - 1];
    if b in Buckets(init, window, clean) {
      BucketAligned(init, window, clean, b);
    }
  }

  /** Every text in a bucket is the non-empty cleaned text of one of the
      messages. */
  lemma {:induction false} BucketMember(ds: seq<Danmaku>, window: int, clean: string -> string, b: int, t: string)
    requires window > 0 && b in Buckets(ds, window, clean) && t in Buckets(ds, window, clean)[b]
    ensures t != [] && exists d :: d in ds && clean(d.text) == t
  {
    var init, d := ds[..|ds| - 1], ds[|ds| - 1];
    var m := Buckets(init, window, clean);
    if b in m && t in m[b] {
      BucketMember(init, window, clean, b, t);
      var e :| e in init && clean(e.text) == t;
      assert e in ds;
    } else {
      assert t == clean(d.text);
    }
  }

  /** A bucket holds exactly the messages a window `[b, b + window)` of the
      sliding analysis selects, in order: a bucket exists for a multiple
      `b` of the window iff that window has a non-blank message. */
  lemma {:induction false} BucketContents(ds: seq<Danmaku>, window: int, b: int)
    requires window > 0 && b % window == 0
    ensures var m := Buckets(ds, window, DanmakuTools.Clip);
      && (b in m <==> DanmakuTools.InWindow(ds, b, b + window) != [])
      && (b in m ==> m[b] == DanmakuTools.InWindow(ds, b, b + window))
  {
    if ds != [] {
      var init := ds[..|ds| - 1];
      var d := ds[|ds| - 1];
      BucketContents(init, window, b);
      DanmakuTools.ClipShape(d.text);
      BucketOfUnique(d.time, window, b);
    }
  }

  /** One turn of the bucket loop: a blank text changes nothing, another
      text joins the end of its bucket. */
  lemma BucketsStep(ds: seq<Danmaku>, window: int, clean: string -> string, i: nat, text: string, b: int)
    requires window > 0 && i < |ds|
    requires text == clean(ds[i].text) && b == BucketOf(ds[i].time, window)
    ensures var m := Buckets(ds[..i], window, clean);
      && (text == [] ==> Buckets(ds[..i + 1], window, clean) == m)
      && (text != [] && b in m ==> Buckets(ds[..i + 1], window, clean) == m[b := m[b] + [text]])
      && (text != [] && b !in m ==> Buckets(ds[..i + 1], window, clean) == m[b := [text]])
  {
    var init := ds[..i + 1];
    assert init[..i] == ds[..i] && init[i] == ds[i];
  }

  /** The key order grows only when a text opens a new bucket. */
  lemma BucketKeysStep(ds: seq<Danmaku>, window: int, clean: string -> string, i: nat, text: string, b: int)
    requires window > 0 && i < |ds|
    requires text == clean(ds[i].text) && b == BucketOf(ds[i].time, window)
    ensures var m, keys := Buckets(ds[..i], window, clean), BucketKeys(ds[..i], window, clean);
      BucketKeys(ds[..i + 1], window, clean) == if text != [] && b !in m then keys + [b] else keys
  {
    var init := ds[..i + 1];
    assert init[..i] == ds[..i] && init[i] == ds[i];
  }

  /** The bucket loop of `analyze_danmaku_density`; `keys` is the
      dictionary's key order. */
  method BuildBuckets(danmakus: seq<Danmaku>, window: int) returns (buckets: map<int, seq<string>>, keys: seq<int>)
    requires window > 0
    ensures buckets == Buckets(danmakus, window, DanmakuTools.Clip)
    ensures keys == BucketKeys(danmakus, window, DanmakuTools.Clip)
  {
    buckets, keys := map[], [];
    var i := 0;
    while i < |danmakus|
      invariant 0 <= i <= |danmakus|
      invariant buckets == Buckets(danmakus[..i], window, DanmakuTools.Clip)
      invariant keys == BucketKeys(danmakus[..i], window, DanmakuTools.Clip)
    {
      var d := danmakus[i];
      var b := BucketOf(d.time, window);
      var text := DanmakuTools.Clip(d.text);
      BucketsStep(danmakus, window, DanmakuTools.Clip, i, text, b);
      BucketKeysStep(danmakus, window, DanmakuTools.Clip, i, text, b);
      if text != [] {
        if b in buckets {
          buckets := buckets[b := buckets[b] + [text]];
        } else {
          buckets := buckets[b := [text]];
          keys := keys + [b];
        }
      }
      i := i + 1;
    }
    assert danmakus[..i] == danmakus;
  }

  /** One entry of the density list: a bucket start and its size. */
  datatype Slot = Slot(start: int, count: int)

  function SlotCount(s: Slot): real { s.count as real }
  function SlotStart(s: Slot): int { s.start }

  /** `[(b, len(buckets[b])) for b in keys]` */
  function Density(buckets: map<int, seq<string>>, keys: seq<int>): (r: seq<Slot>)
    requires forall k :: 0 <= k < |keys| ==> keys[k] in buckets
    ensures |r| == |keys|
    ensures forall k :: 0 <= k < |r| ==> r[k] == Slot(keys[k], |buckets[keys[k]]|)
  {
    seq(|keys|, k requires 0 <= k < |keys| => Slot(keys[k], |buckets[keys[k]]|))
  }

  /** `density` after `sorted(keys)` and the stable sort by `-count`. */
  function Ranked(buckets: map<int, seq<string>>, keys: seq<int>): seq<Slot>
    requires forall i, j :: 0 <= i < j < |keys| ==> keys[i] != keys[j]
    requires forall b :: b in keys <==> b in buckets
  {
    var sorted := SortAsc(keys);
    assert forall k :: 0 <= k < |sorted| ==> sorted[k] in sorted;
    SortDesc(Density(buckets, sorted), SlotCount)
  }

  /** The ranking is by size, largest first, and among buckets of one size
      by start, earliest first. */
  lemma RankedOrder(buckets: map<int, seq<string>>, keys: seq<int>)
    requires forall i, j :: 0 <= i < j < |keys| ==> keys[i] != keys[j]
    requires forall b :: b in keys <==> b in buckets
    ensures SortedDescThenRank(Ranked(buckets, keys), SlotCount, SlotStart)
  {
    var sorted := SortAsc(keys);
    assert forall k :: 0 <= k < |sorted| ==> sorted[k] in sorted;
    var density := Density(buckets, sorted);
    assert IncreasingRank(density, SlotStart) by {
      forall i, j | 0 <= i < j < |density| ensures SlotStart(density[i]) < SlotStart(density[j]) {
        assert density[i].start == sorted[i] && density[j].start == sorted[j];
      }
    }
    SortDescStable(density, SlotCount, SlotStart);
  }

  /** The ranking has one entry per bucket, carrying that bucket's size. */
  lemma RankedContents(buckets: map<int, seq<string>>, keys: seq<int>)
    requires forall i, j :: 0 <= i < j < |keys| ==> keys[i] != keys[j]
    requires forall b :: b in keys <==> b in buckets
    ensures |Ranked(buckets, keys)| == |keys|
    ensures forall s :: s in Ranked(buckets, keys) <==> s.start in buckets && s.count == |buckets[s.start]|
  {
    var sorted := SortAsc(keys);
    assert forall k :: 0 <= k < |sorted| ==> sorted[k] in sorted;
    var density := Density(buckets, sorted);
    var r := Ranked(buckets, keys);
    assert forall s :: s in r <==> s in density by {
      forall s ensures s in r <==> s in density {
        assert s in r <==> s in multiset(r);
        assert s in density <==> s in multiset(density);
      }
    }
    forall s ensures s in density <==> s.start in buckets && s.count == |buckets[s.start]| {
      if s.start in buckets && s.count == |buckets[s.start]| {
        var k :| 0 <= k < |sorted| && sorted[k] == s.start;
        assert density[k] == s;
      }
    }
  }

  /** `top_windows = density[:top_n]`: `min(top_n, #buckets)` entries. */
  function TopWindows(ranked: seq<Slot>, topN: int): (r: seq<Slot>)
    requires topN >= 1
    ensures |r| == Min(topN, |ranked|)
    ensures forall k :: 0 <= k < |r| ==> r[k] == ranked[k]
  {
    Prefix(ranked, topN)
  }

  /** Every text cut to 40 characters, with `...` when it was longer. */
  function Shorten(texts: seq<string>): (r: seq<string>)
    ensures |r| == |texts|
  {
    if texts == [] then [] else Shorten(texts[..|texts| - 1]) + [Truncate(texts[|texts| - 1], 40)]
  }

  /** `buckets[ts][:sample_per_window]`, each cut to 40 characters. */
  function Samples(texts: seq<string>, perWindow: int): seq<string>
  {
    Shorten(Prefix(texts, perWindow))
  }

  /** The samples are the first `sample_per_window` texts of the bucket (all
      of them when there are fewer; a negative count drops that many from the
      end), each cut to 40 characters. */
  lemma {:induction false} SamplesShape(texts: seq<string>, perWindow: int)
    ensures |Samples(texts, perWindow)| == |Prefix(texts, perWindow)|
    ensures forall k :: 0 <= k < |Samples(texts, perWindow)| ==> Samples(texts, perWindow)[k] == Truncate(texts[k], 40)
  {
    ShortenAt(Prefix(texts, perWindow));
  }

  lemma {:induction false} ShortenAt(texts: seq<string>)
    ensures forall k :: 0 <= k < |texts| ==> Shorten(texts)[k] == Truncate(texts[k], 40)
  {
    if texts != [] {
      ShortenAt(texts[..|texts| - 1]);
    }
  }

  /** `f"  {i}. {MM:SS}-{MM:SS} 密度{count}条 | {desc}"` */
  function TopLine(i: int, ts: int, endTs: int, count: int, texts: seq<string>, perWindow: int): string
  {
    "  " + IntToStr(i) + ". " + DanmakuUtils.FmtTs(ts) + "-" + DanmakuUtils.FmtTs(endTs)
      + " 密度" + IntToStr(count) + "条 | " + Join(Samples(texts, perWindow), "；")
  }

  /** `f"【精彩时刻】弹幕密度 Top{top_n}（{bvid}）"` */
  function ReportHead(bvid: string, topN: int): string
  {
    "【精彩时刻】弹幕密度 Top" + IntToStr(topN) + "（" + bvid + "）"
  }

  /** `buckets[ts]` on the `defaultdict`: a missing bucket reads as empty. */
  function BucketAt(buckets: map<int, seq<string>>, b: int): seq<string>
  {
    if b in buckets then buckets[b] else []
  }

  /** What the report lines read besides the ranked bucket: the buckets,
      the window length and `sample_per_window`. */
  datatype ReportContext = ReportContext(buckets: map<int, seq<string>>, window: int, perWindow: int)

  /** The line the report writes for the `i`-th ranked bucket. */
  function SlotLine(ctx: ReportContext, i: int, slot: Slot): string
  {
    TopLine(i, slot.start, slot.start + ctx.window, slot.count, BucketAt(ctx.buckets, slot.start), ctx.perWindow)
  }

  /** The bucket lines of the report: the `top_n` densest buckets, numbered from 1. */
  function ReportLines(danmakus: seq<Danmaku>, window: int, topN: int, perWindow: int): seq<string>
  {
    var w := ClampWindow(window);
    var buckets, keys := Buckets(danmakus, w, DanmakuTools.Clip), BucketKeys(danmakus, w, DanmakuTools.Clip);
    EnumerateWith(ReportContext(buckets, w, perWindow), TopWindows(Ranked(buckets, keys), ClampTop(topN)), SlotLine)
  }

  /** What `analyze_danmaku_density` returns for fetched messages. */
  function DensityReport(bvid: string, danmakus: seq<Danmaku>, window: int, topN: int, perWindow: int): string
  {
    if danmakus == [] then "暂无弹幕，无法分析。"
    else Join([ReportHead(bvid, ClampTop(topN))] + ReportLines(danmakus, window, topN, perWindow), "\n")
  }

  /** `analyze_danmaku_density` after the fetch: buckets, ranking and the
      listing loop. */
  method AnalyzeDensity(bvid: string, danmakus: seq<Danmaku>, window: int, topN: int, perWindow: int)
    returns (out: string)
    ensures out == DensityReport(bvid, danmakus, window, topN, perWindow)
  {
    var w := ClampWindow(window);
    var n := ClampTop(topN);
    if danmakus == [] {
      return "暂无弹幕，无法分析。";
    }
    var buckets, keys := BuildBuckets(danmakus, w);
    var top := TopWindows(Ranked(buckets, keys), n);
    var ctx := ReportContext(buckets, w, perWindow);
    var lines := [];
    var i := 0;
    while i < |top|
      invariant 0 <= i <= |top|
      invariant lines == EnumerateWith(ctx, top[..i], SlotLine)
    {
      EnumerateWithSnoc(ctx, top, SlotLine, i);
      lines := lines + [SlotLine(ctx, i + 1, top[i])];
      i := i + 1;
    }
    assert top[..i] == top;
    assert lines == ReportLines(danmakus, window, topN, perWindow);
    out := Join([ReportHead(bvid, n)] + lines, "\n");
  }

  /** The samples of a bucket are single lines. */
  lemma SamplesOneLine(danmakus: seq<Danmaku>, window: int, b: int, perWindow: int)
    requires window > 0
    ensures '\n' !in Join(Samples(BucketAt(Buckets(danmakus, window, DanmakuTools.Clip), b), perWindow), "；")
  {
    var texts := BucketAt(Buckets(danmakus, window, DanmakuTools.Clip), b);
    var samples := Samples(texts, perWindow);
    SamplesShape(texts, perWindow);
    forall j | 0 <= j < |samples| ensures '\n' !in samples[j] {
      BucketMember(danmakus, window, DanmakuTools.Clip, b, texts[j]);
      var d :| d in danmakus && DanmakuTools.Clip(d.text) == texts[j];
      DanmakuTools.ClipShape(d.text);
      TruncateOneLine(texts[j], 40);
    }
    JoinExcludes(samples, "；", '\n');
  }

  /** The pieces of a bucket line, put together, stay on one line. */
  lemma TopLinePiecesOneLine(num: string, from: string, to: string, count: string, desc: string)
    requires '\n' !in num && '\n' !in from && '\n' !in to && '\n' !in count && '\n' !in desc
    ensures '\n' !in "  " + num + ". " + from + "-" + to + " 密度" + count + "条 | " + desc
  {
    ConcatExcludes('\n', "  ", num);
    ConcatExcludes('\n', "  " + num, ". ");
    ConcatExcludes('\n', "  " + num + ". ", from);
    ConcatExcludes('\n', "  " + num + ". " + from, "-");
    ConcatExcludes('\n', "  " + num + ". " + from + "-", to);
    ConcatExcludes('\n', "  " + num + ". " + from + "-" + to, " 密度");
    ConcatExcludes('\n', "  " + num + ". " + from + "-" + to + " 密度", count);
    ConcatExcludes('\n', "  " + num + ". " + from + "-" + to + " 密度" + count, "条 | ");
  }

  lemma TopLineOneLine(danmakus: seq<Danmaku>, window: int, perWindow: int, i: int, slot: Slot)
    requires window > 0
    ensures '\n' !in SlotLine(ReportContext(Buckets(danmakus, window, DanmakuTools.Clip), window, perWindow), i, slot)
  {
    SamplesOneLine(danmakus, window, slot.start, perWindow);
    SlotLineNoBreak(ReportContext(Buckets(danmakus, window, DanmakuTools.Clip), window, perWindow), i, slot);
  }

  /** A bucket line whose samples hold no line break holds none either. */
  lemma SlotLineNoBreak(ctx: ReportContext, i: int, slot: Slot)
    requires '\n' !in Join(Samples(BucketAt(ctx.buckets, slot.start), ctx.perWindow), "；")
    ensures '\n' !in SlotLine(ctx, i, slot)
  {
    var samples := Join(Samples(BucketAt(ctx.buckets, slot.start), ctx.perWindow), "；");
    IntToStrOneLine(i);
    IntToStrOneLine(slot.count);
    DanmakuUtils.FmtTsOneLine(slot.start);
    DanmakuUtils.FmtTsOneLine(slot.start + ctx.window);
    TopLinePiecesOneLine(IntToStr(i), DanmakuUtils.FmtTs(slot.start), DanmakuUtils.FmtTs(slot.start + ctx.window),
      IntToStr(slot.count), samples);
  }

  lemma ReportHeadOneLine(bvid: string, topN: int)
    requires '\n' !in bvid
    ensures '\n' !in ReportHead(bvid, topN)
  {
    var n := IntToStr(topN);
    IntToStrOneLine(topN);
    ConcatExcludes('\n', "【精彩时刻】弹幕密度 Top", n);
    ConcatExcludes('\n', "【精彩时刻】弹幕密度 Top" + n, "（");
    ConcatExcludes('\n', "【精彩时刻】弹幕密度 Top" + n + "（", bvid);
    ConcatExcludes('\n', "【精彩时刻】弹幕密度 Top" + n + "（" + bvid, "）");
  }

  /** With messages, the report is the head line and then one line per
      bucket among the `top_n` densest, in ranking order, numbered from 1. */
  lemma DensityReportShape(bvid: string, danmakus: seq<Danmaku>, window: int, topN: int, perWindow: int)
    requires '\n' !in bvid && danmakus != []
    ensures var w := ClampWindow(window);
      var buckets := Buckets(danmakus, w, DanmakuTools.Clip);
      var keys := BucketKeys(danmakus, w, DanmakuTools.Clip);
      var ranked := Ranked(buckets, keys);
      var lines := Split(DensityReport(bvid, danmakus, window, topN, perWindow), '\n');
      && |lines| == 1 + Min(ClampTop(topN), |keys|)
      && lines[0] == ReportHead(bvid, ClampTop(topN))
      && forall k :: 1 <= k < |lines| ==> lines[k] == SlotLine(ReportContext(buckets, w, perWindow), k, ranked[k - 1])
  {
    var head, body := ReportHead(bvid, ClampTop(topN)), ReportLines(danmakus, window, topN, perWindow);
    ReportLinesAt(danmakus, window, topN, perWindow);
    ReportHeadOneLine(bvid, ClampTop(topN));
    HeadThenLines(head, body);
    var lines := Split(DensityReport(bvid, danmakus, window, topN, perWindow), '\n');
    assert lines == [head] + body;
    forall k | 1 <= k < |lines| ensures lines[k] == body[k - 1] { }
  }

  /** The bucket lines: one per ranked bucket among the first `top_n`. */
  lemma ReportLinesAt(danmakus: seq<Danmaku>, window: int, topN: int, perWindow: int)
    ensures var w := ClampWindow(window);
      var buckets := Buckets(danmakus, w, DanmakuTools.Clip);
      var keys := BucketKeys(danmakus, w, DanmakuTools.Clip);
      var ranked := Ranked(buckets, keys);
      var body := ReportLines(danmakus, window, topN, perWindow);
      && |body| == Min(ClampTop(topN), |keys|)
      && (forall k :: 0 <= k < |body| ==> body[k] == SlotLine(ReportContext(buckets, w, perWindow), k + 1, ranked[k]))
      && (forall k :: 0 <= k < |body| ==> '\n' !in body[k])
  {
    var w := ClampWindow(window);
    var buckets, keys := Buckets(danmakus, w, DanmakuTools.Clip), BucketKeys(danmakus, w, DanmakuTools.Clip);
    var top := TopWindows(Ranked(buckets, keys), ClampTop(topN));
    RankedContents(buckets, keys);
    EnumerateWithAt(ReportContext(buckets, w, perWindow), top, SlotLine);
    ReportLinesOneLine(danmakus, window, topN, perWindow);
  }

  /** No bucket line breaks across lines. */
  lemma ReportLinesOneLine(danmakus: seq<Danmaku>, window: int, topN: int, perWindow: int)
    ensures var body := ReportLines(danmakus, window, topN, perWindow);
      forall k :: 0 <= k < |body| ==> '\n' !in body[k]
  {
    var w := ClampWindow(window);
    var buckets, keys := Buckets(danmakus, w, DanmakuTools.Clip), BucketKeys(danmakus, w, DanmakuTools.Clip);
    var top := TopWindows(Ranked(buckets, keys), ClampTop(topN));
    var ctx := ReportContext(buckets, w, perWindow);
    EnumerateWithAt(ctx, top, SlotLine);
    forall k | 0 <= k < |top| ensures '\n' !in SlotLine(ctx, k + 1, top[k]) {
      TopLineOneLine(danmakus, w, perWindow, k + 1, top[k]);
    }
  }
}

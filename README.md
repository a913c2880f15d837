# Danmaku analysis toolkit — a Dafny model

This project models the text-processing core of a Bilibili assistant's
danmaku (bullet-comment) tools, and proves properties of that model in Dafny.
The modelled parts are:

- `density.py`. It smooths a density curve with a centred moving average. It
  counts messages in sliding windows over second-sized buckets. It collects
  the local minima of the curve, ranked by relative depth.
- `content.py`. It builds character bigram sets and their Jaccard similarity.
  It finds the point inside a segment where the topic of the messages
  changes most.
- `segment.py`. It picks segment boundaries in three phases: deep natural
  valleys first; then, for segments that are still too long, a free density
  minimum inside them; then a content split point or the midpoint.
- `utils.py`. It formats `MM:SS` timestamps, labels peaks by how far they
  rise above the average, and takes evenly spread, de-duplicated samples.
- `danmaku/tools.py`. It cleans and de-duplicates message texts (whitespace,
  repeated characters, exact and near duplicates by trigram Jaccard). It
  prepares the prompts sent to a language model, in one shot or in batches
  followed by a merge. It does sliding-window and interval analysis and
  numbers the resulting lines.
- `danmaku.py`. These are the two older tools: a numbered listing of
  messages, and a density report over fixed buckets, ranked by size and
  shown with a few samples.
- `search.py`. It strips HTML tags from search titles, merges the anime and
  film/series hits by season id (first occurrence wins), and lists at most
  fifteen of them.

Python's built-ins are modelled explicitly where the code relies on them.
`PyBase` holds `range`, slicing with negative or oversized bounds, floor
division, `enumerate`, `sum` and `max`. `PyStr` holds `str.strip`,
`str.replace`, decimal and zero-padded formatting, `join` and `split`.
`Sorting` holds the stable `list.sort(key=...)` and `sorted`. Integers are
unbounded, as in Python. Ratios and averages are `real`, where the source
uses floating point.

Two kinds of code are kept separate. Pure logic is functions and lemmas.
Loops become methods. Each such method is proved equal to a specification
function (or against quantified postconditions), and the promised
properties are proved about that function. Remote services are not
modelled. The message lists, video information, comments and search
results are given as input sequences. The language model is a function
parameter `llm: Request -> Option<string>`, and the methods return the
requests they would send.

Some source functions appear twice, and each is modelled once:

- `_fmt_ts` in `danmaku/tools.py` is the same formatting as `fmt_ts` in
  `_internal/utils.py` (`DanmakuUtils.FmtTs`).
- `get_danmakus` in `danmaku/tools.py` is the same as in `danmaku.py`
  (`DanmakuLegacy.Listing`).

`jaccard` in `_internal/content.py` and `_jaccard` in `danmaku/tools.py`
are written differently: the latter has an explicit 0.0 branch for exactly
one empty set, the former reaches 0.0 there through the general ratio.
Both give 1.0 on two empty sets and 0.0 when exactly one set is empty.
`Dedupe.JaccardAgrees` proves they give the same ratio on every input.

## Model

| member | source | states |
|---|---|---|
| Density.Smooth | src/panda_brain/agents/bilibili/tools/danmaku/_internal/density.py:6-14 | `smooth` gives one value per input value, so `[]` for `[]`. Each value is `sum(values[lo:hi]) / (hi - lo)` under Python's slice rules: a negative bound counts from the end and bounds are clamped to the list. `SmoothWithinSlice` and `SmoothNegative` state what that gives. |
| Density.SmoothWithinSlice | src/panda_brain/agents/bilibili/tools/danmaku/_internal/density.py:9-13 | The averaging slice `values[max(0,i-half):min(n,i+half+1)]` is non-empty and holds position `i`. Each smoothed value lies between that slice's minimum and maximum. |
| Density.SmoothIdentity | src/panda_brain/agents/bilibili/tools/danmaku/_internal/density.py:9-13 | A window of 0 or 1 (radius 0) returns the values unchanged. |
| Density.SmoothNonNegative | src/panda_brain/agents/bilibili/tools/danmaku/_internal/density.py:9-13 | Non-negative counts smooth to non-negative values for every window of -2 or more. |
| Density.SmoothNegative | src/panda_brain/agents/bilibili/tools/danmaku/_internal/density.py:9-13 | A negative window gives a negative radius `half`. Then `lo = i - half` and `hi = i + half + 1`, so the divisor `hi - lo` is `2*half + 1`: negative and never zero. Each value is the sum of the Python slice `values[lo:hi]` over that divisor. For a window of -1 or -2 the slice is empty and the value is 0. |
| Density.SmoothNonPositive | src/panda_brain/agents/bilibili/tools/danmaku/_internal/density.py:9-13 | For a negative window, non-negative values smooth to values at most 0: a non-negative slice sum over a negative divisor. |
| Density.SmoothWrapsAround | src/panda_brain/agents/bilibili/tools/danmaku/_internal/density.py:9-13 | `smooth([1,1,1,1], -3)[0]` is `-1/3`: the slice `values[2:-1]` holds one value and the divisor is -3. |
| Density.SlidingDensity | src/panda_brain/agents/bilibili/tools/danmaku/_internal/density.py:17-32 | `positions` and `densities` have equal length `ceil(duration/step)` (0 when `duration <= 0`). Position `k` is `k*step < duration`. Density `k` counts the messages of the buckets at `p, p+bucket_sec, ...` below `min(p+window_sec, duration+bucket_sec)`, a missing bucket counting 0. |
| Density.Peak | src/panda_brain/agents/bilibili/tools/danmaku/_internal/density.py:44-46 | The peak is at least 1e-9 and at least each neighbour of the minimum, so the division for `depth` is defined. |
| Density.CandidatesSound | src/panda_brain/agents/bilibili/tools/danmaku/_internal/density.py:41-48 | Each scanned entry is an interior local minimum (no higher than either neighbour) with its depth `1 - s[i]/peak`. |
| Density.CandidatesAscending | src/panda_brain/agents/bilibili/tools/danmaku/_internal/density.py:41-48 | The scan lists minima in ascending index order. |
| Density.CandidatesComplete | src/panda_brain/agents/bilibili/tools/danmaku/_internal/density.py:41-48 | The scan misses no local minimum of the interior. |
| Density.CandidatesExact | src/panda_brain/agents/bilibili/tools/danmaku/_internal/density.py:41-48 | The scan is sound, complete and ascending at once. |
| Density.MinimaSameEntries | src/panda_brain/agents/bilibili/tools/danmaku/_internal/density.py:49 | Sorting by depth keeps exactly the scanned entries. |
| Density.MinimaSound | src/panda_brain/agents/bilibili/tools/danmaku/_internal/density.py:35-50 | `collect_minima` returns only local minima, each with its depth (and `[]` when `n <= 2`). |
| Density.MinimaComplete | src/panda_brain/agents/bilibili/tools/danmaku/_internal/density.py:35-50 | `collect_minima` returns every local minimum. |
| Density.MinimaExact | src/panda_brain/agents/bilibili/tools/danmaku/_internal/density.py:35-50 | Every local minimum is listed and nothing else is. |
| Density.MinimaRanked | src/panda_brain/agents/bilibili/tools/danmaku/_internal/density.py:49 | The result is ordered by depth, deepest first; equal depths keep ascending index order (stable sort). No index appears twice. |
| Density.DepthRange | src/panda_brain/agents/bilibili/tools/danmaku/_internal/density.py:44-47 | For a non-negative curve every depth lies in [0, 1]. |
| Density.ScanMinima | src/panda_brain/agents/bilibili/tools/danmaku/_internal/density.py:40-48 | The scan loop returns exactly the specification list of interior minima. |
| Density.CollectMinima | src/panda_brain/agents/bilibili/tools/danmaku/_internal/density.py:35-50 | The method returns the ranked minima: `[]` for `n <= 2`, all and only the local minima, deepest first with ties by index. |
| Content.NGrams | src/panda_brain/agents/bilibili/tools/danmaku/_internal/content.py:4-10 | Every gram has the requested length. |
| Content.NGramsMember | src/panda_brain/agents/bilibili/tools/danmaku/_internal/content.py:8-9 | A string is a gram of `t` exactly when it is `t[i:i+n]` for some start `i`; texts shorter than `n` give none. |
| Content.BigramsMember | src/panda_brain/agents/bilibili/tools/danmaku/_internal/content.py:4-10 | A bigram of the text list is exactly a bigram of one of its texts. |
| Content.TextBigrams | src/panda_brain/agents/bilibili/tools/danmaku/_internal/content.py:4-10 | The nested loop collects exactly the bigram set of all texts. |
| Content.Jaccard | src/panda_brain/agents/bilibili/tools/danmaku/_internal/content.py:13-18 | The similarity lies in [0, 1]. |
| Content.JaccardSymmetric | src/panda_brain/agents/bilibili/tools/danmaku/_internal/content.py:13-18 | `jaccard(a, b) == jaccard(b, a)`. |
| Content.JaccardOne | src/panda_brain/agents/bilibili/tools/danmaku/_internal/content.py:13-18 | The similarity is 1 exactly when both sets are equal (two empty sets included). |
| Content.JaccardSelf | src/panda_brain/agents/bilibili/tools/danmaku/_internal/content.py:15-16 | `jaccard(a, a) == 1`. |
| Content.JaccardBelowOne | src/panda_brain/agents/bilibili/tools/danmaku/_internal/content.py:17-18 | Different sets have similarity below 1. |
| Content.JaccardDisjoint | src/panda_brain/agents/bilibili/tools/danmaku/_internal/content.py:17-18 | Disjoint sets, not both empty, have similarity 0. |
| Content.Windows | src/panda_brain/agents/bilibili/tools/danmaku/_internal/content.py:34-41 | One analysis window per start `seg_start, seg_start+aw, ...` below `seg_end`. |
| Content.WindowsAt | src/panda_brain/agents/bilibili/tools/danmaku/_internal/content.py:34-41 | Window `j` starts at the `j`-th start and gathers the bucket texts at `t in range(start, min(start+aw, seg_end), bucket_sec)`. |
| Content.WindowAtIndex | src/panda_brain/agents/bilibili/tools/danmaku/_internal/content.py:34-41 | The same, for one given window index. |
| Content.BestUpToSpec | src/panda_brain/agents/bilibili/tools/danmaku/_internal/content.py:46-55 | The best change lies in [0, 1]; no position is chosen exactly when the change is 0. The change is at least that of every eligible adjacent pair, and a chosen position is the start of the first eligible window that reaches it (strict `>`). |
| Content.ContentSplitSpec | src/panda_brain/agents/bilibili/tools/danmaku/_internal/content.py:21-57 | The result change is in [0, 1], a chosen position is a window start strictly inside the margins, and the change dominates every eligible pair when there are at least 3 windows. |
| Content.ContentSplitShort | src/panda_brain/agents/bilibili/tools/danmaku/_internal/content.py:43-44 | A segment no longer than two analysis windows (fewer than 3 windows) gives `(None, 0.0)`. |
| Content.GatherTexts | src/panda_brain/agents/bilibili/tools/danmaku/_internal/content.py:38-39 | The inner loop concatenates the bucket texts at the given times, a missing bucket adding nothing. |
| Content.MakeWindow | src/panda_brain/agents/bilibili/tools/danmaku/_internal/content.py:35-41 | One loop round builds the specified window. |
| Content.BuildWindows | src/panda_brain/agents/bilibili/tools/danmaku/_internal/content.py:34-41 | The window loop builds exactly the specified windows. |
| Content.ScanWindows | src/panda_brain/agents/bilibili/tools/danmaku/_internal/content.py:46-55 | The scan loop returns the specified best position and change. |
| Content.ContentSplitPoint | src/panda_brain/agents/bilibili/tools/danmaku/_internal/content.py:21-57 | `content_split_point` returns the specified split. |
| Segment.MinGap | src/panda_brain/agents/bilibili/tools/danmaku/_internal/segment.py:25 | `min_gap` is at least 2. |
| Segment.MaxIter | src/panda_brain/agents/bilibili/tools/danmaku/_internal/segment.py:36 | `None`, Python's `ZeroDivisionError`, exactly when `max_seg_sec` is 0. Otherwise the budget is at least 20 and at least `2 * (duration // max_seg_sec)`, and it equals one of the two. |
| Segment.FirstShallow | src/panda_brain/agents/bilibili/tools/danmaku/_internal/segment.py:29-31 | Phase 1 looks at the minima before the first one shallower than `natural_depth`, and at no other. |
| Segment.Phase1Extends | src/panda_brain/agents/bilibili/tools/danmaku/_internal/segment.py:29-33 | Phase 1 only appends, each time an index of a minimum before the stop. |
| Segment.Phase1Spaced | src/panda_brain/agents/bilibili/tools/danmaku/_internal/segment.py:32-33 | Indices accepted by phase 1 are pairwise at least `min_gap` apart. |
| Segment.Phase1Maximal | src/panda_brain/agents/bilibili/tools/danmaku/_internal/segment.py:32-33 | Every minimum before the stop that phase 1 skipped is closer than `min_gap` to an accepted one. |
| Segment.ShallowOnSorted | src/panda_brain/agents/bilibili/tools/danmaku/_internal/segment.py:29-31 | On depth-sorted minima the stop separates exactly the deep ones from the shallow ones. |
| Segment.SpacedDistinct | src/panda_brain/agents/bilibili/tools/danmaku/_internal/segment.py:32-33 | Spaced indices are distinct. |
| Segment.FirstLongGap | src/panda_brain/agents/bilibili/tools/danmaku/_internal/segment.py:40-44 | The loop finds no gap exactly when every consecutive cut difference is at most `max_seg_sec`; otherwise it finds the first one that exceeds it. |
| Segment.FirstFree | src/panda_brain/agents/bilibili/tools/danmaku/_internal/segment.py:53-61 | Phase 2 picks the first minimum that is unselected, strictly inside `(s+margin, e-margin)` and `min_gap` from every selected index; none when no minimum qualifies. |
| Segment.Closest | src/panda_brain/agents/bilibili/tools/danmaku/_internal/segment.py:71-74 | The closest index is a valid index of `positions`. |
| Segment.ClosestNearest | src/panda_brain/agents/bilibili/tools/danmaku/_internal/segment.py:71-74 | `min(range(n), key=...)` returns the first index minimising `|positions[i] - target|`. |
| Segment.RepairStep | src/panda_brain/agents/bilibili/tools/danmaku/_internal/segment.py:38-89 | One repair round stops exactly when every gap fits. When it adds an index, that index is new, valid and strictly inside the first long span. It fails only when `positions` is empty. |
| Segment.Fallback | src/panda_brain/agents/bilibili/tools/danmaku/_internal/segment.py:67-89 | The content split and midpoint fallback either add a valid index strictly inside the span and unselected, or give up. |
| Segment.RepairPrefersMinimum | src/panda_brain/agents/bilibili/tools/danmaku/_internal/segment.py:52-64 | When a free density minimum exists, the round adds the first one. |
| Segment.RepairFallbacks | src/panda_brain/agents/bilibili/tools/danmaku/_internal/segment.py:66-89 | Without a free minimum, an added index is the content candidate or the index closest to the step-aligned midpoint. Giving up means that midpoint index is unacceptable. |
| Segment.StepOfSound | src/panda_brain/agents/bilibili/tools/danmaku/_internal/segment.py:37-89 | Every round adds a fresh valid index or ends the loop. |
| Segment.RunShape | src/panda_brain/agents/bilibili/tools/danmaku/_internal/segment.py:37-89 | Over at most `fuel` rounds the selection stays sorted, valid and a superset of the start, and grows by at most `fuel`. |
| Segment.RunStops | src/panda_brain/agents/bilibili/tools/danmaku/_internal/segment.py:37-89 | The loop ends because all gaps fit, because the round gives up, because `positions` is empty, or because the bound is used up (then exactly `fuel` indices were added). |
| Segment.RunHalt | src/panda_brain/agents/bilibili/tools/danmaku/_internal/segment.py:45-46 | A round that adds nothing ends the loop with the selection unchanged. |
| Segment.RepairLoop | src/panda_brain/agents/bilibili/tools/danmaku/_internal/segment.py:37-89 | The bounded repair loop keeps the selection workable and adds at most `max_iter` indices, keeping all earlier ones. |
| Segment.RepairLoopStops | src/panda_brain/agents/bilibili/tools/danmaku/_internal/segment.py:40-46 | If the loop stops because no gap is oversized, every consecutive cut difference is at most `max_seg_sec`; the other exits are as in `RunStops`. |
| Segment.NaturalCutsValid | src/panda_brain/agents/bilibili/tools/danmaku/_internal/segment.py:24-33 | Phase 1 returns local minima of the curve, pairwise `min_gap` apart and distinct. |
| Segment.SelectionShape | src/panda_brain/agents/bilibili/tools/danmaku/_internal/segment.py:24-91 | The result is strictly increasing (sorted, no duplicates), holds valid indices, keeps every phase-1 index, and has at most the phase-1 count plus `max_iter` entries. It stops before any repair, with the `ZeroDivisionError` of line 36, exactly when `max_seg_sec` is 0. |
| Segment.FindLongGap | src/panda_brain/agents/bilibili/tools/danmaku/_internal/segment.py:41-44 | The gap loop returns the specified first long gap. |
| Segment.FindFreeMinimum | src/panda_brain/agents/bilibili/tools/danmaku/_internal/segment.py:53-61 | The phase-2 loop returns the index of the first free minimum, or none. |
| Segment.ClosestIndex | src/panda_brain/agents/bilibili/tools/danmaku/_internal/segment.py:71-74 | The `min(..., key=...)` scan returns the specified closest index. |
| Segment.RepairOnce | src/panda_brain/agents/bilibili/tools/danmaku/_internal/segment.py:38-64 | One iteration of the loop body, run on `sorted(selected)`, takes the specified repair step. |
| Segment.SplitSpan | src/panda_brain/agents/bilibili/tools/danmaku/_internal/segment.py:67-69 | Phase 3 asks `content_split_point` about the span with its margin. |
| Segment.FallbackOnce | src/panda_brain/agents/bilibili/tools/danmaku/_internal/segment.py:70-89 | The phase-3 and midpoint code takes the specified fallback step. |
| Segment.NaturalValleys | src/panda_brain/agents/bilibili/tools/danmaku/_internal/segment.py:29-33 | The phase-1 loop returns the specified greedy selection. |
| Segment.RepairSegments | src/panda_brain/agents/bilibili/tools/danmaku/_internal/segment.py:37-89 | The repair loop runs with the `max_iter` that line 36 computed, and it returns the specified selection. A run that needs `min()` over no positions (a `ValueError` in Python) gives `None`. |
| Segment.SelectBoundaries | src/panda_brain/agents/bilibili/tools/danmaku/_internal/segment.py:7-91 | `select_boundaries` returns the specified selection. It returns `None` where Python raises: the `ZeroDivisionError` of a zero `max_seg_sec`, or the `ValueError` of `min()` over no positions. |
| DanmakuUtils.FmtTsOneLine | src/panda_brain/agents/bilibili/tools/danmaku/_internal/utils.py:4-6 | A formatted timestamp holds no line break. |
| DanmakuUtils.FmtTsFields | src/panda_brain/agents/bilibili/tools/danmaku/_internal/utils.py:4-6 | For `sec >= 0`: minutes digits, `:`, then two seconds digits below 60. Together they read back as `sec`. |
| DanmakuUtils.FmtTsWidth | src/panda_brain/agents/bilibili/tools/danmaku/_internal/utils.py:6 | Below 100 minutes the timestamp is exactly `MM:SS`. |
| DanmakuUtils.HeatBand | src/panda_brain/agents/bilibili/tools/danmaku/_internal/utils.py:13-20 | The band is 3 from ratio 2.0, at least 2 from 1.3, at least 1 from 0.7, else 0. |
| DanmakuUtils.HeatLabelCases | src/panda_brain/agents/bilibili/tools/danmaku/_internal/utils.py:9-20 | The label is `""` exactly when `avg_peak <= 0`; otherwise it is the label of the ratio's band. |
| DanmakuUtils.HeatBandMonotone | src/panda_brain/agents/bilibili/tools/danmaku/_internal/utils.py:13-20 | A higher peak never gets a lower band. |
| DanmakuUtils.BandLabelInjective | src/panda_brain/agents/bilibili/tools/danmaku/_internal/utils.py:15-20 | Different bands have different labels. |
| DanmakuUtils.FirstUnseen | src/panda_brain/agents/bilibili/tools/danmaku/_internal/utils.py:34-39 | The inner loop finds a text whose 30-character key is unseen, or reports that none of the texts has one. |
| DanmakuUtils.PicksValid | src/panda_brain/agents/bilibili/tools/danmaku/_internal/utils.py:29-30 | Every picked index is valid for `ts_list`. |
| DanmakuUtils.PicksSpaced | src/panda_brain/agents/bilibili/tools/danmaku/_internal/utils.py:29-30 | The picks are the first `count` of `0, step, 2*step, ...` with `step = max(1, len//count)`. |
| DanmakuUtils.KeyOfSample | src/panda_brain/agents/bilibili/tools/danmaku/_internal/utils.py:35-38 | The stored 80-character sample has the same 30-character key as its text. |
| DanmakuUtils.PickSampleShape | src/panda_brain/agents/bilibili/tools/danmaku/_internal/utils.py:33-39 | One picked timestamp adds at most one sample. The sample is at most 80 characters, cut from one of the first 3 texts of its bucket, and keys stay distinct. |
| DanmakuUtils.SampleFromGrows | src/panda_brain/agents/bilibili/tools/danmaku/_internal/utils.py:33-41 | The outer loop only appends, at most one sample per pick, and stops at `count`. |
| DanmakuUtils.SampleFromSamples | src/panda_brain/agents/bilibili/tools/danmaku/_internal/utils.py:33-41 | Keys stay pairwise distinct, and every new sample is at most 80 characters and comes from a picked bucket. |
| DanmakuUtils.SamplesShape | src/panda_brain/agents/bilibili/tools/danmaku/_internal/utils.py:23-42 | `[]` for no timestamps; at most `count` samples, each at most 80 characters, with pairwise distinct 30-character prefixes, each from a picked bucket. |
| DanmakuUtils.FindUnseen | src/panda_brain/agents/bilibili/tools/danmaku/_internal/utils.py:34-39 | The inner loop returns the specified first unseen text. |
| DanmakuUtils.TakeSample | src/panda_brain/agents/bilibili/tools/danmaku/_internal/utils.py:33-39 | One pick updates `samples` and `seen` as specified, keeping `seen` equal to the keys of `samples`. |
| DanmakuUtils.SegmentSamples | src/panda_brain/agents/bilibili/tools/danmaku/_internal/utils.py:23-42 | `segment_samples` returns the specified samples; an empty `ts_list` returns `[]` for every `count`, zero included. |
| Dedupe.CollapseSpaceShape | src/panda_brain/agents/bilibili/tools/danmaku/tools.py:36 | `re.sub(r"\s+", " ", t)` leaves only single plain spaces as blanks, never two blanks in a row, and keeps a non-blank first character. |
| Dedupe.CapRunsBlanks | src/panda_brain/agents/bilibili/tools/danmaku/tools.py:38 | Capping runs of a character at two keeps "blanks are plain spaces". |
| Dedupe.CapRunsNoDouble | src/panda_brain/agents/bilibili/tools/danmaku/tools.py:38 | Capping runs keeps "no two blanks in a row". |
| Dedupe.CapRunsNoTriple | src/panda_brain/agents/bilibili/tools/danmaku/tools.py:38 | After `re.sub(r"(.)\1+", r"\1\1", t)` no character occurs three times in a row (Python `.` skips line breaks, which the earlier steps removed). |
| Dedupe.StripKeepsBlanks | src/panda_brain/agents/bilibili/tools/danmaku/tools.py:36 | The final `.strip()` keeps both blank properties. |
| Dedupe.CleanedShape | src/panda_brain/agents/bilibili/tools/danmaku/tools.py:35-36 | After stripping and collapsing whitespace, blanks are single plain spaces and the text does not start with one. |
| Dedupe.NormalizeShape | src/panda_brain/agents/bilibili/tools/danmaku/tools.py:33-39 | A normalised text has at most 100 characters, no line break or tab, no leading blank, no two blanks in a row and no triple character. |
| Dedupe.TrigramsShape | src/panda_brain/agents/bilibili/tools/danmaku/tools.py:42-44 | `_trigrams` is empty below 3 characters and otherwise holds exactly the substrings `s[i:i+3]`. |
| Dedupe.JaccardAgrees | src/panda_brain/agents/bilibili/tools/danmaku/tools.py:47-52 | `_jaccard` equals `jaccard` of `_internal/content.py` on every pair of sets, so it too lies in [0, 1]. |
| Dedupe.KeptMember | src/panda_brain/agents/bilibili/tools/danmaku/tools.py:57 | A kept text is exactly a non-empty normalisation of some input text. |
| Dedupe.TallyTexts | src/panda_brain/agents/bilibili/tools/danmaku/tools.py:58 | `Counter` has an entry for exactly the texts that occur. |
| Dedupe.TallyDistinct | src/panda_brain/agents/bilibili/tools/danmaku/tools.py:58 | `Counter` entries have distinct texts. |
| Dedupe.TallyCounts | src/panda_brain/agents/bilibili/tools/danmaku/tools.py:58 | Each entry counts the occurrences of its text. |
| Dedupe.TallyOrder | src/panda_brain/agents/bilibili/tools/danmaku/tools.py:58 | Entries come in order of first occurrence. |
| Dedupe.TallySum | src/panda_brain/agents/bilibili/tools/danmaku/tools.py:58 | The counts add up to the number of texts. |
| Dedupe.DedupeWindowItems | src/panda_brain/agents/bilibili/tools/danmaku/tools.py:55-59 | `_dedupe_window` gives distinct non-empty normalised texts, each with its number of occurrences. |
| Dedupe.DedupeWindowCovers | src/panda_brain/agents/bilibili/tools/danmaku/tools.py:55-59 | Every kept text is listed, and the counts add up to the number of kept texts. |
| Dedupe.DedupeWindowOrder | src/panda_brain/agents/bilibili/tools/danmaku/tools.py:59 | Items are sorted by count, highest first; equal counts keep first-occurrence order (stable sort). |
| Dedupe.AbsorbLater | src/panda_brain/agents/bilibili/tools/danmaku/tools.py:73-81 | The inner loop marks the later similar items as used, adds their counts and keeps the longest text (the first one on ties). |
| Dedupe.MergeGroups | src/panda_brain/agents/bilibili/tools/danmaku/tools.py:66-82 | The outer loop builds the specified groups. |
| Dedupe.MergeSimilarItems | src/panda_brain/agents/bilibili/tools/danmaku/tools.py:62-83 | `_merge_similar` returns the specified merge. |
| Dedupe.MergeSimilarCount | src/panda_brain/agents/bilibili/tools/danmaku/tools.py:62-83 | Merging keeps the total count. |
| Dedupe.MergeSimilarSize | src/panda_brain/agents/bilibili/tools/danmaku/tools.py:62-83 | Merging never adds items. |
| Dedupe.MergeSimilarTexts | src/panda_brain/agents/bilibili/tools/danmaku/tools.py:72-82 | Every merged text is one of the input texts. |
| Dedupe.MergeSimilarNone | src/panda_brain/agents/bilibili/tools/danmaku/tools.py:62-83 | With no similar pair, the result is a permutation of the input. |
| Dedupe.MergeSimilarOrder | src/panda_brain/agents/bilibili/tools/danmaku/tools.py:64-83 | One item or none comes back unchanged; otherwise the result is sorted by count, highest first. |
| DanmakuTools.PromptLineShape | src/panda_brain/agents/bilibili/tools/danmaku/tools.py:129 | A prompt line is the text, followed by ` (x<count>)` exactly when the count exceeds 1. |
| DanmakuTools.FormatForPromptLines | src/panda_brain/agents/bilibili/tools/danmaku/tools.py:127-130 | `（无）` when nothing is taken; otherwise the block splits back into the lines of the first `max_items` items. |
| DanmakuTools.OneLine | src/panda_brain/agents/bilibili/tools/danmaku/tools.py:100-103 | The reply is at most 200 characters and starts with no blank; a failed call gives `""`. |
| DanmakuTools.NumberedLineShape | src/panda_brain/agents/bilibili/tools/danmaku/tools.py:150 | A numbered line reads back as its number, `. ` and its summary. |
| DanmakuTools.NumberedBlockLines | src/panda_brain/agents/bilibili/tools/danmaku/tools.py:150 | The merge block splits back into one numbered line per summary. |
| DanmakuTools.MergeSummaries | src/panda_brain/agents/bilibili/tools/danmaku/tools.py:144-156 | `""` with no summary and the summary itself with one, neither asking the model. With two or more it sends exactly one merge request and the reply has at most 200 characters. |
| DanmakuTools.BatchesCover | src/panda_brain/agents/bilibili/tools/danmaku/tools.py:192-193 | The batches, concatenated, give back the items. |
| DanmakuTools.BatchesShape | src/panda_brain/agents/bilibili/tools/danmaku/tools.py:192-193 | There are `ceil(n/15)` batches. Batch `k` is `items[15k : 15k+15]` and holds 1 to 15 items. |
| DanmakuTools.BatchRequestsAt | src/panda_brain/agents/bilibili/tools/danmaku/tools.py:193-195 | One summary request per batch, in batch order. |
| DanmakuTools.NonEmptyRepliesShape | src/panda_brain/agents/bilibili/tools/danmaku/tools.py:195-197 | Only non-empty replies are kept, at most one per request. |
| DanmakuTools.BatchBlockLines | src/panda_brain/agents/bilibili/tools/danmaku/tools.py:193-194 | The block of batch `k` lists exactly that batch's items, one prompt line each. |
| DanmakuTools.SummarizeBatches | src/panda_brain/agents/bilibili/tools/danmaku/tools.py:191-197 | The batch loop sends the batch requests in order and keeps the non-empty replies. |
| DanmakuTools.AnalyzeNoItems | src/panda_brain/agents/bilibili/tools/danmaku/tools.py:168-173 | Nothing is left after de-duplication exactly when every message normalises to the empty string; then nothing is asked and the summary is `""`. |
| DanmakuTools.AnalyzeOneShot | src/panda_brain/agents/bilibili/tools/danmaku/tools.py:176-188 | With 1 to 25 items exactly one request is sent, carrying the interval, the items and the comments, and the summary has at most 200 characters. |
| DanmakuTools.AnalyzeBatched | src/panda_brain/agents/bilibili/tools/danmaku/tools.py:176-201 | With more than 25 items the interval is summarised in batches (`BatchedShape`), and the reply still has at most 200 characters, since every reply passes through `_llm_one_line`. |
| DanmakuTools.BatchedShape | src/panda_brain/agents/bilibili/tools/danmaku/tools.py:190-201 | Batching sends the batch requests first and then at most one merge request, only when two or more batch summaries are non-empty. No summary gives `""` and one gives that summary. |
| DanmakuTools.AnalyzeInterval | src/panda_brain/agents/bilibili/tools/danmaku/tools.py:159-201 | `_analyze_interval_via_llm` returns the specified summary and makes the specified requests. |
| DanmakuTools.ClampParams | src/panda_brain/agents/bilibili/tools/danmaku/tools.py:251-257 | The window is raised to 15 when smaller and otherwise kept. The step is raised to 5, then lowered to the clamped window. Top comments is clamped to [1, 100]; values in range are kept. |
| DanmakuTools.EffectiveDuration | src/panda_brain/agents/bilibili/tools/danmaku/tools.py:262-264 | A non-positive duration becomes 1500; a positive one is kept. |
| DanmakuTools.AnalyzeDuration | src/panda_brain/agents/bilibili/tools/danmaku/tools.py:266-268 | The analysed span is the duration, cut to `max_duration_sec` when that is given and positive. |
| DanmakuTools.NumWindowsAgrees | src/panda_brain/agents/bilibili/tools/danmaku/tools.py:279-280 | `num_windows` equals the number of iterations of the `while start < analyze_duration` loop. |
| DanmakuTools.ClipShape | src/panda_brain/agents/bilibili/tools/danmaku/tools.py:289-291 | A clipped text has at most 100 characters and no line break. It is empty exactly when the stripped text is. |
| DanmakuTools.InWindowHas | src/panda_brain/agents/bilibili/tools/danmaku/tools.py:288-292 | Every message shown in `[start, end)` contributes its clipped text. |
| DanmakuTools.InWindowFrom | src/panda_brain/agents/bilibili/tools/danmaku/tools.py:288-292 | Every collected text comes from a message shown in the window. |
| DanmakuTools.InWindowSize | src/panda_brain/agents/bilibili/tools/danmaku/tools.py:288-292 | A window collects at most one text per message. |
| DanmakuTools.IntervalsShape | src/panda_brain/agents/bilibili/tools/danmaku/tools.py:279-307 | `num_windows` results. Result `k` starts at `k*step` and ends at `min(k*step + window, duration)`, after its start. Its count is the number of texts in the window. |
| DanmakuTools.SummarizeWindow | src/panda_brain/agents/bilibili/tools/danmaku/tools.py:296-298 | One window's analysis returns the specified outcome. |
| DanmakuTools.SlidingWindows | src/panda_brain/agents/bilibili/tools/danmaku/tools.py:284-307 | The sliding-window loop returns the specified results and requests. |
| DanmakuTools.AnalyzeDensity | src/panda_brain/agents/bilibili/tools/danmaku/tools.py:251-307 | No danmaku gives no report. Otherwise the report carries the effective duration, the analysed span and the clamped parameters, with one analysed interval per window start (`num_windows` of them). |
| DanmakuLegacy.ClampLimit | src/panda_brain/agents/bilibili/tools/danmaku.py:11-12 | A limit outside 1..500 becomes 100; one inside is kept. |
| DanmakuLegacy.TruncateShape | src/panda_brain/agents/bilibili/tools/danmaku.py:28 | Texts of at most `n` characters are kept; longer ones become their first `n` characters plus `...`. |
| DanmakuLegacy.OneLineText | src/panda_brain/agents/bilibili/tools/danmaku.py:27 | The cleaned text is no longer than the input and holds no line break. |
| DanmakuLegacy.ListDanmakus | src/panda_brain/agents/bilibili/tools/danmaku.py:23-33 | `get_danmakus` returns the specified listing. |
| DanmakuLegacy.ListingLineOneLine | src/panda_brain/agents/bilibili/tools/danmaku.py:25-28 | A listing line holds no line break. |
| DanmakuLegacy.ListingHeadOneLine | src/panda_brain/agents/bilibili/tools/danmaku.py:29-32 | The head holds no line break when the bvid has none. |
| DanmakuLegacy.NumberedListing | src/panda_brain/agents/bilibili/tools/danmaku.py:24-33 | A head joined with numbered lines splits back into the head and the lines in order. |
| DanmakuLegacy.ListingShape | src/panda_brain/agents/bilibili/tools/danmaku.py:23-33 | `暂无弹幕。` for no danmaku. Otherwise the head, then one line per danmaku among the first `min(limit, total)`, numbered from 1. |
| DanmakuLegacy.ClampWindow | src/panda_brain/agents/bilibili/tools/danmaku.py:44-45 | A window below 30 becomes 60; otherwise it is kept. |
| DanmakuLegacy.ClampTop | src/panda_brain/agents/bilibili/tools/danmaku.py:46-47 | A top count outside 1..20 becomes 5; otherwise it is kept. |
| DanmakuLegacy.BucketOf | src/panda_brain/agents/bilibili/tools/danmaku.py:64 | The bucket is a multiple of the window with `b <= time < b + window` (floor division). |
| DanmakuLegacy.BucketOfUnique | src/panda_brain/agents/bilibili/tools/danmaku.py:64 | That multiple is the only such one. |
| DanmakuLegacy.BucketKeys | src/panda_brain/agents/bilibili/tools/danmaku.py:62-67 | The keys list exactly the filled buckets, without repeats. |
| DanmakuLegacy.BucketAligned | src/panda_brain/agents/bilibili/tools/danmaku.py:62-67 | Every bucket is a multiple of the window and holds at least one text. |
| DanmakuLegacy.BucketMember | src/panda_brain/agents/bilibili/tools/danmaku.py:65-67 | Every text in a bucket is the non-empty cleaned text of some danmaku. |
| DanmakuLegacy.BucketContents | src/panda_brain/agents/bilibili/tools/danmaku.py:62-67 | Bucket `b` exists exactly when its window `[b, b+window)` has a text; it holds those texts in order. |
| DanmakuLegacy.BuildBuckets | src/panda_brain/agents/bilibili/tools/danmaku.py:62-67 | The bucket loop builds the specified map and key order. |
| DanmakuLegacy.RankedOrder | src/panda_brain/agents/bilibili/tools/danmaku.py:68-69 | Ranked windows are sorted by count, highest first; equal counts stay in ascending time order. |
| DanmakuLegacy.RankedContents | src/panda_brain/agents/bilibili/tools/danmaku.py:68-69 | Ranking lists each bucket once, with its count. |
| DanmakuLegacy.TopWindows | src/panda_brain/agents/bilibili/tools/danmaku.py:70 | The first `min(top_n, len)` ranked windows. |
| DanmakuLegacy.ShortenAt | src/panda_brain/agents/bilibili/tools/danmaku.py:78 | Each sample is cut to 40 characters plus `...`. |
| DanmakuLegacy.SamplesShape | src/panda_brain/agents/bilibili/tools/danmaku.py:77-78 | At most `sample_per_window` samples, each the shortened bucket text at that position. |
| DanmakuLegacy.SamplesOneLine | src/panda_brain/agents/bilibili/tools/danmaku.py:77-78 | The joined samples hold no line break. |
| DanmakuLegacy.TopLineOneLine | src/panda_brain/agents/bilibili/tools/danmaku.py:73-79 | A top-window line holds no line break. |
| DanmakuLegacy.ReportHeadOneLine | src/panda_brain/agents/bilibili/tools/danmaku.py:72 | The report head holds no line break when the bvid has none. |
| DanmakuLegacy.NumberedListingWith | src/panda_brain/agents/bilibili/tools/danmaku.py:73-80 | The head and numbered lines split back in order. |
| DanmakuLegacy.AnalyzeDensity | src/panda_brain/agents/bilibili/tools/danmaku.py:60-80 | `analyze_danmaku_density` returns the specified report. |
| DanmakuLegacy.DensityReportShape | src/panda_brain/agents/bilibili/tools/danmaku.py:60-80 | With at least one danmaku the report is the head, then one line for each of the first `min(top_n, buckets)` ranked windows, numbered from 1, giving its start, end, count and samples. |
| Search.TagEnd | src/panda_brain/agents/bilibili/tools/search.py:10 | A tag `<[^>]+>` at the front ends at the first `>`, which needs at least one character between the brackets. |
| Search.StripHtml | src/panda_brain/agents/bilibili/tools/search.py:9-10 | A missing or empty text gives `""`; otherwise the tags are removed. |
| Search.StripTags | src/panda_brain/agents/bilibili/tools/search.py:10 | Removing tags never lengthens the text. |
| Search.TagRemoved | src/panda_brain/agents/bilibili/tools/search.py:10 | A tag with a non-empty body and no `>` inside is removed entirely. |
| Search.EmptyBracketsKept | src/panda_brain/agents/bilibili/tools/search.py:10 | `<>` is not a tag and is kept. |
| Search.UnclosedKept | src/panda_brain/agents/bilibili/tools/search.py:10 | A `<` with no later `>` is kept. |
| Search.PlainUnchanged | src/panda_brain/agents/bilibili/tools/search.py:10 | Text with no `<` is unchanged. |
| Search.PlainPrefix | src/panda_brain/agents/bilibili/tools/search.py:10 | A prefix with no `<` is kept in front of the stripped rest. |
| Search.StripTagsExcludes | src/panda_brain/agents/bilibili/tools/search.py:10 | Stripping adds no character that was not there. |
| Search.StripTagsSubsequence | src/panda_brain/agents/bilibili/tools/search.py:10 | The stripped text is a subsequence of the input. |
| Search.StripTagsIdempotent | src/panda_brain/agents/bilibili/tools/search.py:10 | Stripping twice equals stripping once: no tag survives. |
| Search.SeasonKey | src/panda_brain/agents/bilibili/tools/search.py:27 | The key is `season_id` when truthy, else `ssid` when truthy, else 0 (falsy). |
| Search.KeysSnoc | src/panda_brain/agents/bilibili/tools/search.py:29 | Appending an item adds its key to the seen set. |
| Search.CollectedKeys | src/panda_brain/agents/bilibili/tools/search.py:26-30 | The seen set is exactly the truthy keys of all hits. |
| Search.CollectedFirstHits | src/panda_brain/agents/bilibili/tools/search.py:26-30 | The kept items are exactly the first hit of each truthy key, in hit order. |
| Search.CollectedDistinct | src/panda_brain/agents/bilibili/tools/search.py:28-30 | Kept items have truthy, pairwise distinct keys. |
| Search.FirstHitsFrom | src/panda_brain/agents/bilibili/tools/search.py:30 | Every kept item is one of the hits. |
| Search.CollectedStep | src/panda_brain/agents/bilibili/tools/search.py:28-30 | One hit is appended exactly when its key is truthy and unseen. |
| Search.Absorb | src/panda_brain/agents/bilibili/tools/search.py:26-30 | Going through one result list keeps the seen set equal to the keys of the kept items. |
| Search.CollectSeasons | src/panda_brain/agents/bilibili/tools/search.py:17-30 | The loop over the BANGUMI then FT results keeps the first hit of each season. |
| Search.NoteChoice | src/panda_brain/agents/bilibili/tools/search.py:38-44 | The note is the season type name when non-empty, else the stripped subtitle when non-empty, else nothing. A missing name or subtitle counts as the `""` default of `.get`. |
| Search.SeasonLineNumbered | src/panda_brain/agents/bilibili/tools/search.py:34-40 | Line `i` starts with `i. `. |
| Search.EntryMediaId | src/panda_brain/agents/bilibili/tools/search.py:46-47 | A truthy `media_id` ends the line with `, media_id: <id>`. |
| Search.EntryNoMediaId | src/panda_brain/agents/bilibili/tools/search.py:45-47 | Without one, the line ends with ` — ssid: <ssid>`. |
| Search.SeasonLines | src/panda_brain/agents/bilibili/tools/search.py:33-48 | One line per item among the first 15, numbered from 1. |
| Search.SearchBangumiSsid | src/panda_brain/agents/bilibili/tools/search.py:13-49 | `search_bangumi_ssid` returns the report of the collected items. |
| Search.NothingCollected | src/panda_brain/agents/bilibili/tools/search.py:26-30 | With no truthy key nothing is kept. |
| Search.ReportNotFound | src/panda_brain/agents/bilibili/tools/search.py:31-32 | With no truthy key the not-found message is returned. |
| Search.SeasonLineOneLine | src/panda_brain/agents/bilibili/tools/search.py:40-47 | A season line holds no line break when its texts hold none. |
| Search.ReportShape | src/panda_brain/agents/bilibili/tools/search.py:33-49 | The report is the head plus the lines of the first 15 kept items, numbered from 1. |
| Sorting.SortDesc | src/panda_brain/agents/bilibili/tools/danmaku/_internal/density.py:49 | `list.sort(key=lambda x: -x[1])` (also used by `_internal/segment.py`, `danmaku/tools.py` and `danmaku.py`) returns a permutation of its input, sorted by key, highest first. |
| Sorting.SortDescStable | src/panda_brain/agents/bilibili/tools/danmaku/_internal/density.py:49 | The sort is stable: items with equal keys keep their input order. |

## Left out

- Network and platform calls are not modelled: `video.Video.get_info`, `get_danmakus`, `search.search_by_type` and the comment API behind `_fetch_top_comments`. Their results are inputs: a sequence of messages, the reported duration, a sequence of comments and the two search result lists.
- `_fetch_top_comments` is not modelled; its de-duplicated, trimmed comment list is an input of `DanmakuTools.AnalyzeDensity`.
- The language model is a function parameter. A failed or timed-out HTTP call in `_llm_one_line` is `None`, which gives `""` as in the source. The settings, the host URL and the HTTP client are not modelled.
- The wording of the prompts is not modelled. A `Request` records which prompt is sent and what goes into it: the interval timestamps, the items or the batch, the comments and the summaries to merge.
- DanmakuTools.AnalyzeDensity: returns the structured report (duration, analysed span, clamped parameters, intervals), not the text rendering at `danmaku/tools.py:313-323`.
- The JSON file written by `analyze_danmaku_density` is not modelled: the output directory from the environment, the timestamped file name from the clock, and the `完整数据已写入` prefix.
- The progress lines written to standard error are not modelled.
- The `except Exception` branches that return `获取失败: …`, `分析失败: …` or `搜索失败: …` are not modelled. They only report failures of the remote calls.
- `from_min`/`to_min` and the segment range (`from_seg`, `to_seg`) passed to the message API are not modelled: they only choose which messages the service returns, and those messages are an input.
- Message times (`dm_time`, a float in the source) are given as integers already truncated by `int(...)`, which is the only way the code uses them.
- Floating-point ratios and averages are `real`. Rounding is not modelled: equalities such as `jaccard(a, b) == 1.0` hold exactly in the model.
- The `sec // 60` and `sec % 60` of `fmt_ts` use Python's floor division, which matches Dafny's for the non-negative seconds the code produces. `DanmakuUtils.FmtTsFields` is stated for `sec >= 0`.
- `select_boundaries` raises `ValueError` in Python when `min()` runs over an empty `positions`, and `ZeroDivisionError` at line 36 when `max_seg_sec` is 0. `Segment.SelectBoundaries` returns `None` for both, and `Segment.RepairSegments` returns `None` for the first. `Segment.MaxIter` is `None` for the second.
- Density.SmoothNonNegative: holds for windows of -2 or more only. From -3 down, Python's negative slice stop can select values whose sum is divided by a negative number. `Density.SmoothNonPositive` states the sign there instead.
- DanmakuUtils.SegmentSamples: requires `count != 0` for a non-empty `ts_list`, where Python raises `ZeroDivisionError`; an empty `ts_list` returns `[]` before the division, for any `count`.
- Density.SlidingDensity: requires positive `bucket_sec` and `step_sec`. Python's `range` raises `ValueError` for a step of 0. For a negative step it counts downwards: no window for a positive `duration`, and for a negative `bucket_sec` the buckets from `start` down to above `end` whenever `end < start`. The model's `range` is defined for positive steps only, and no caller passes a step below 1.
- Content.ContentSplitPoint: requires positive `bucket_sec` and `analysis_window`, for the same reason. With a negative `analysis_window`, Python builds no window for `seg_start < seg_end` and returns `(None, 0.0)`. With a negative `bucket_sec`, every window's bigram set is empty.
- Segment.SelectBoundaries: requires a positive `step_sec` and `bucket_sec`. Python raises `ZeroDivisionError` for a `step_sec` of 0. A negative `step_sec` is floor-divided in `min_gap` and in the midpoint. A negative `bucket_sec` reaches `content_split_point` as above. The same method requires `len(smoothed) <= len(positions) + 1`: minima are interior indices, so this covers every input whose minima index into `positions`. A longer `smoothed` raises `IndexError` in Python as soon as a minimum beyond `positions` is used.
- Python's regular expressions are modelled by hand, for the three patterns used: `\s+` (the whitespace of `str.isspace`, listed in `PyStr.IsSpace`), `(.)\1+`, and `<[^>]+>`.
- Search: `season_id`, `ssid` and `media_id` are integers. 0 stands for every falsy value (missing, `None`, `0`). The `result.get("result") or []` lists are given as sequences. A title or subtitle is absent, `None` or a string (`Search.Text`).
- Search.SeasonLine: prints the season key that `SeasonKey` found (`season_id or ssid`), which is the value line 35 recomputes.
- `comment.py` and `bangumi.py` are not part of this model.
- Concurrency (`async`/`await`) is not modelled: every call is taken in program order.

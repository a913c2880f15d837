/** Three-phase boundary selection over a density curve
    (`_internal/segment.py`): natural valleys first, then repair of
    over-long segments at a free local minimum, at a topic change, or at the
    snapped midpoint. Boundaries are indices into `positions`. */
module Segment {
  import opened PyBase
  import Sorting
  import opened Density
  import Content

  /** Topic change a content split must exceed to be used. */
  const MinChange: real := 0.05

  /** Width in seconds of the analysis windows of a content split. */
  const AnalysisWindow: int := 30

  function Abs(x: int): nat { if x < 0 then -x else x }

  /** `all(abs(idx - s) >= gap for s in sel)` */
  predicate FarFrom(idx: int, sel: seq<int>, gap: int)
  {
    forall k :: 0 <= k < |sel| ==> Abs(idx - sel[k]) >= gap
  }

  /** Any two selected indices are at least `gap` apart. */
  predicate Spaced(sel: seq<int>, gap: int)
  {
    forall i, j :: 0 <= i < j < |sel| ==> Abs(sel[i] - sel[j]) >= gap
  }

  predicate Distinct(sel: seq<int>)
  {
    forall i, j :: 0 <= i < j < |sel| ==> sel[i] != sel[j]
  }

  predicate ValidIndices(sel: seq<int>, n: int)
  {
    forall k :: 0 <= k < |sel| ==> 0 <= sel[k] < n
  }

  /** `max(2, min_seg_sec // step_sec)` */
  function MinGap(minSegSec: int, stepSec: int): (r: int)
    requires stepSec > 0
    ensures r >= 2
  {
    Max(2, minSegSec / stepSec)
  }

  /** `max(20, duration // max_seg_sec * 2)`, the repair budget; `None`
      stands for the `ZeroDivisionError` a zero `max_seg_sec` raises. */
  function MaxIter(duration: int, maxSegSec: int): (r: Option<nat>)
    ensures r.None? <==> maxSegSec == 0
    ensures maxSegSec != 0 ==> r.Some? && r.value >= 20 && r.value >= FloorDiv(duration, maxSegSec) * 2
    ensures maxSegSec != 0 ==> r.Some? && (r.value == 20 || r.value == FloorDiv(duration, maxSegSec) * 2)
  {
    if maxSegSec == 0 then None else Some(Max(20, FloorDiv(duration, maxSegSec) * 2))
  }

  // -------------------------------------------------------------- phase 1

  /** Index of the first minimum shallower than `nd`, or `|ms|`. */
  function FirstShallow(ms: seq<Minimum>, nd: real): (r: nat)
    ensures r <= |ms|
    ensures forall k :: 0 <= k < r ==> ms[k].depth >= nd
    ensures r < |ms| ==> ms[r].depth < nd
  {
    if ms == [] || ms[0].depth < nd then 0 else 1 + FirstShallow(ms[1..], nd)
  }

  /** Phase 1 from the current selection `sel`: walk the minima in order,
      stop at the first one shallower than `nd`, and take each one that is
      at least `gap` from everything taken so far. */
  function Phase1(ms: seq<Minimum>, nd: real, gap: int, sel: seq<int>): seq<int>
  {
    if ms == [] || ms[0].depth < nd then sel
    else Phase1(ms[1..], nd, gap, if FarFrom(ms[0].index, sel, gap) then sel + [ms[0].index] else sel)
  }

  /** Indices at positions `from ..` of `r` are indices of minima before the stop point. */
  ghost predicate TakenFrom(r: seq<int>, from: int, ms: seq<Minimum>, nd: real)
  {
    forall k :: 0 <= k < |r| && from <= k ==> exists j :: 0 <= j < FirstShallow(ms, nd) && ms[j].index == r[k]
  }

  /** Phase 1 only appends, and only indices of minima before the stop point. */
  lemma {:induction false} Phase1Extends(ms: seq<Minimum>, nd: real, gap: int, sel: seq<int>)
    ensures |sel| <= |Phase1(ms, nd, gap, sel)| <= |sel| + |ms|
    ensures Phase1(ms, nd, gap, sel)[..|sel|] == sel
    ensures TakenFrom(Phase1(ms, nd, gap, sel), |sel|, ms, nd)
  {
    if ms != [] && ms[0].depth >= nd {
      var idx := ms[0].index;
      var next := if FarFrom(idx, sel, gap) then sel + [idx] else sel;
      var r := Phase1(ms[1..], nd, gap, next);
      Phase1Extends(ms[1..], nd, gap, next);
      assert r[..|sel|] == next[..|sel|];
      forall k | |sel| <= k < |r| ensures exists j :: 0 <= j < FirstShallow(ms, nd) && ms[j].index == r[k] {
        if k < |next| {
          assert r[k] == next[k] == idx == ms[0].index;
        } else {
          var j :| 0 <= j < FirstShallow(ms[1..], nd) && ms[1..][j].index == r[k];
          assert ms[j + 1].index == r[k];
        }
      }
    }
  }

  /** Every index phase 1 takes is at least `gap` from every other. */
  lemma {:induction false} Phase1Spaced(ms: seq<Minimum>, nd: real, gap: int, sel: seq<int>)
    requires Spaced(sel, gap)
    ensures Spaced(Phase1(ms, nd, gap, sel), gap)
  {
    if ms != [] && ms[0].depth >= nd {
      var idx := ms[0].index;
      if FarFrom(idx, sel, gap) {
        var next := sel + [idx];
        assert Spaced(next, gap) by {
          forall i, j | 0 <= i < j < |next| ensures Abs(next[i] - next[j]) >= gap {
            if j == |sel| {
              assert Abs(idx - sel[i]) >= gap;
            }
          }
        }
        Phase1Spaced(ms[1..], nd, gap, next);
      } else {
        Phase1Spaced(ms[1..], nd, gap, sel);
      }
    }
  }

  /** Greedy maximality: every minimum before the stop point is within
      `gap` of some selected index (itself, when it was taken). */
  lemma {:induction false} Phase1Maximal(ms: seq<Minimum>, nd: real, gap: int, sel: seq<int>)
    requires gap >= 1
    ensures forall k :: 0 <= k < FirstShallow(ms, nd) ==> !FarFrom(ms[k].index, Phase1(ms, nd, gap, sel), gap)
  {
    if ms != [] && ms[0].depth >= nd {
      var idx := ms[0].index;
      var next := if FarFrom(idx, sel, gap) then sel + [idx] else sel;
      var r := Phase1(ms[1..], nd, gap, next);
      Phase1Maximal(ms[1..], nd, gap, next);
      Phase1Extends(ms[1..], nd, gap, next);
      assert !FarFrom(idx, r, gap) by {
        if FarFrom(idx, sel, gap) {
          assert r[|sel|] == next[|sel|] == idx;
        } else {
          var k :| 0 <= k < |sel| && Abs(idx - sel[k]) < gap;
          assert r[k] == next[k] == sel[k];
        }
      }
      forall k | 1 <= k < FirstShallow(ms, nd) ensures !FarFrom(ms[k].index, r, gap) {
        assert ms[k] == ms[1..][k - 1];
      }
    }
  }

  /** On a list sorted deepest first, phase 1 considers exactly the minima
      at least `nd` deep. */
  lemma ShallowOnSorted(ms: seq<Minimum>, nd: real)
    requires Sorting.SortedDesc(ms, DepthKey)
    ensures forall k :: 0 <= k < |ms| ==> (k < FirstShallow(ms, nd) <==> ms[k].depth >= nd)
  {
  }

  /** Indices at least one apart are distinct. */
  lemma SpacedDistinct(sel: seq<int>, gap: int)
    requires Spaced(sel, gap) && gap >= 1
    ensures Distinct(sel)
  {
  }

  // ------------------------------------------------------ repair: helpers

  /** `cuts[j + 1] - cuts[j]` */
  function GapAt(cuts: seq<int>, j: int): int
    requires 0 <= j < |cuts| - 1
  {
    cuts[j + 1] - cuts[j]
  }

  /** No segment between consecutive cuts is longer than `maxSeg`. */
  predicate AllFit(cuts: seq<int>, maxSeg: int)
  {
    forall j :: 0 <= j < |cuts| - 1 ==> GapAt(cuts, j) <= maxSeg
  }

  /** The first segment longer than `maxSeg`, if any. */
  function FirstLongGap(cuts: seq<int>, maxSeg: int): (r: Option<nat>)
    ensures r.None? <==> AllFit(cuts, maxSeg)
    ensures r.Some? ==>
      && r.value < |cuts| - 1 && GapAt(cuts, r.value) > maxSeg
      && forall j :: 0 <= j < r.value ==> GapAt(cuts, j) <= maxSeg
  {
    if |cuts| < 2 then None
    else if cuts[1] - cuts[0] > maxSeg then Some(0)
    else
      var rest := FirstLongGap(cuts[1..], maxSeg);
      assert forall j :: 1 <= j < |cuts| - 1 ==> GapAt(cuts, j) == GapAt(cuts[1..], j - 1);
      match rest
      case None => None
      case Some(j) => Some(j + 1)
  }

  /** `[0] + [positions[i] for i in sorted_sel] + [duration]` */
  function CutsOf(positions: seq<int>, sortedSel: seq<int>, duration: int): (r: seq<int>)
    requires ValidIndices(sortedSel, |positions|)
    ensures |r| == |sortedSel| + 2 && r[0] == 0 && r[|r| - 1] == duration
    ensures forall k :: 0 <= k < |sortedSel| ==> r[k + 1] == positions[sortedSel[k]]
  {
    [0] + seq(|sortedSel|, k requires 0 <= k < |sortedSel| => positions[sortedSel[k]]) + [duration]
  }

  /** The segment being repaired and its margin. */
  datatype Span = Span(s: int, e: int, margin: int)

  /** `margin = min(min_seg_sec, (e - s) // 3)` */
  function SpanOf(s: int, e: int, minSegSec: int): Span
  {
    Span(s, e, Min(minSegSec, FloorDiv(e - s, 3)))
  }

  /** Strictly inside `(s + margin, e - margin)`. */
  predicate Inside(p: int, sp: Span)
  {
    sp.s + sp.margin < p < sp.e - sp.margin
  }

  /** Phase 2's test of a minimum: unselected, inside the span, and at
      least `gap` from every selected index. */
  predicate Free(m: Minimum, sel: seq<int>, positions: seq<int>, sp: Span, gap: int)
  {
    m.index !in sel && 0 <= m.index < |positions| && Inside(positions[m.index], sp)
    && FarFrom(m.index, sel, gap)
  }

  /** Position in `ms` of the first free minimum, if any. */
  function FirstFree(ms: seq<Minimum>, sel: seq<int>, positions: seq<int>, sp: Span, gap: int): (r: Option<nat>)
    ensures r.Some? ==>
      && r.value < |ms| && Free(ms[r.value], sel, positions, sp, gap)
      && forall k :: 0 <= k < r.value ==> !Free(ms[k], sel, positions, sp, gap)
    ensures r.None? ==> forall k :: 0 <= k < |ms| ==> !Free(ms[k], sel, positions, sp, gap)
  {
    if ms == [] then None
    else if Free(ms[0], sel, positions, sp, gap) then Some(0)
    else
      match FirstFree(ms[1..], sel, positions, sp, gap)
      case None =>
        assert forall k :: 1 <= k < |ms| ==> ms[k] == ms[1..][k - 1];
        None
      case Some(k) =>
        assert forall k' :: 1 <= k' < |ms| ==> ms[k'] == ms[1..][k' - 1];
        Some(k + 1)
  }

  /** `min(range(len(positions)), key=lambda i: abs(positions[i] - target))`:
      the first index whose position is nearest to `target`. */
  function Closest(positions: seq<int>, target: int): (r: nat)
    requires |positions| > 0
    ensures r < |positions|
  {
    if |positions| == 1 then 0
    else
      var c := Closest(positions[..|positions| - 1], target);
      var last := |positions| - 1;
      if Abs(positions[last] - target) < Abs(positions[c] - target) then last else c
  }

  /** `Closest` is nearest to `target`, and no earlier index is as near. */
  lemma {:induction false} ClosestNearest(positions: seq<int>, target: int)
    requires |positions| > 0
    ensures var r := Closest(positions, target);
      && (forall i :: 0 <= i < |positions| ==> Abs(positions[r] - target) <= Abs(positions[i] - target))
      && (forall i :: 0 <= i < r ==> Abs(positions[i] - target) > Abs(positions[r] - target))
  {
    if |positions| > 1 {
      var init := positions[..|positions| - 1];
      ClosestNearest(init, target);
      forall i | 0 <= i < |init| ensures init[i] == positions[i] { }
    }
  }

  /** Phases 3 and the fallback accept an index only if it is unselected and inside the span. */
  predicate Acceptable(i: int, sel: seq<int>, positions: seq<int>, sp: Span)
    requires 0 <= i < |positions|
  {
    i !in sel && Inside(positions[i], sp)
  }

  /** `(s + e) // 2 // step_sec * step_sec` */
  function Midpoint(sp: Span, stepSec: int): int
    requires stepSec > 0
  {
    (sp.s + sp.e) / 2 / stepSec * stepSec
  }

  // ------------------------------------------------- repair: one iteration

  /** The inputs of `select_boundaries` other than the curve itself. The
      buckets enter only through `split`, the content split of a span
      `(s, e, margin)`; `ConfigOf` fixes it to `content_split_point`. */
  datatype Config = Config(positions: seq<int>, duration: int, stepSec: int, maxSegSec: int,
                           minSegSec: int, split: (int, int, int) -> Content.Split, minGap: int)

  predicate ValidConfig(c: Config)
  {
    c.stepSec > 0
  }

  /** A selection the repair loop can work on: kept in ascending order
      (`sorted(selected)`, which is all the loop looks at besides membership),
      of valid indices. */
  predicate Workable(c: Config, sel: seq<int>)
  {
    Sorting.StrictlyIncreasing(sel) && ValidIndices(sel, |c.positions|)
  }

  /** What one repair iteration does: stop because every segment fits, add
      one index, give up, or fail because `min` ran over no positions. */
  datatype Step = Done | Add(idx: int) | GiveUp | NoPositions

  lemma SameIndices(a: seq<int>, b: seq<int>, n: int)
    requires (forall y :: y in a ==> y in b) && ValidIndices(b, n)
    ensures ValidIndices(a, n)
  {
    forall k | 0 <= k < |a| ensures 0 <= a[k] < n {
      assert a[k] in a;
      var j :| 0 <= j < |b| && b[j] == a[k];
    }
  }

  /** The cuts of a selection. */
  function SelectionCuts(c: Config, sel: seq<int>): seq<int>
    requires Workable(c, sel)
  {
    CutsOf(c.positions, sel, c.duration)
  }

  /** The first over-long segment of a selection. */
  function LongSpan(c: Config, sel: seq<int>): Option<Span>
    requires Workable(c, sel)
  {
    var cuts := SelectionCuts(c, sel);
    match FirstLongGap(cuts, c.maxSegSec)
    case None => None
    case Some(j) => Some(SpanOf(cuts[j], cuts[j + 1], c.minSegSec))
  }

  /** The index phase 3 proposes, if the content split is strong enough. */
  function ContentCandidate(c: Config, sp: Span): Option<nat>
    requires ValidConfig(c) && |c.positions| > 0
  {
    var split := c.split(sp.s, sp.e, sp.margin);
    if split.pos.Some? && split.change > MinChange then Some(Closest(c.positions, split.pos.value)) else None
  }

  /** One iteration of the repair loop. */
  function RepairStep(c: Config, ms: seq<Minimum>, sel: seq<int>): (r: Step)
    requires ValidConfig(c) && Workable(c, sel)
    ensures r.Done? <==> AllFit(SelectionCuts(c, sel), c.maxSegSec)
    ensures r.Add? ==>
      && r.idx !in sel && 0 <= r.idx < |c.positions|
      && LongSpan(c, sel).Some? && Inside(c.positions[r.idx], LongSpan(c, sel).value)
    ensures r.NoPositions? ==> |c.positions| == 0
  {
    match LongSpan(c, sel)
    case None => Done
    case Some(sp) =>
      match FirstFree(ms, sel, c.positions, sp, c.minGap)
      case Some(k) => Add(ms[k].index)
      case None => if |c.positions| == 0 then NoPositions else Fallback(c, sel, sp)
  }

  /** Phase 3 and the midpoint fallback, once no free minimum exists. */
  function Fallback(c: Config, sel: seq<int>, sp: Span): (r: Step)
    requires ValidConfig(c) && |c.positions| > 0
    ensures r.Add? || r.GiveUp?
    ensures r.Add? ==> 0 <= r.idx < |c.positions| && Acceptable(r.idx, sel, c.positions, sp)
  {
    var viaContent := ContentCandidate(c, sp);
    if viaContent.Some? && Acceptable(viaContent.value, sel, c.positions, sp) then Add(viaContent.value)
    else
      var mid := Closest(c.positions, Midpoint(sp, c.stepSec));
      if Acceptable(mid, sel, c.positions, sp) then Add(mid) else GiveUp
  }

  /** Phase 2 takes precedence: when a free minimum exists, the first one is added. */
  lemma RepairPrefersMinimum(c: Config, ms: seq<Minimum>, sel: seq<int>)
    requires ValidConfig(c) && Workable(c, sel)
    requires LongSpan(c, sel).Some?
    ensures FirstFree(ms, sel, c.positions, LongSpan(c, sel).value, c.minGap).Some? ==>
      RepairStep(c, ms, sel) == Add(ms[FirstFree(ms, sel, c.positions, LongSpan(c, sel).value, c.minGap).value].index)
  {
  }

  /** Without a free minimum, an index is added only as the position
      nearest to a strong topic change or to the snapped midpoint; giving up
      means the midpoint's nearest position was rejected. */
  lemma RepairFallbacks(c: Config, ms: seq<Minimum>, sel: seq<int>)
    requires ValidConfig(c) && Workable(c, sel) && |c.positions| > 0
    requires LongSpan(c, sel).Some?
    requires FirstFree(ms, sel, c.positions, LongSpan(c, sel).value, c.minGap).None?
    ensures var sp := LongSpan(c, sel).value;
      && (RepairStep(c, ms, sel).Add? ==>
            RepairStep(c, ms, sel).idx == Closest(c.positions, Midpoint(sp, c.stepSec))
            || Some(RepairStep(c, ms, sel).idx as nat) == ContentCandidate(c, sp))
      && (RepairStep(c, ms, sel).GiveUp? ==>
            !Acceptable(Closest(c.positions, Midpoint(sp, c.stepSec)), sel, c.positions, sp))
  {
  }

  // ------------------------------------------------ repair: the whole loop

  /** Why the repair loop ended: every segment fits, the budget ran out,
      no split was possible, `min` raised `ValueError` over no positions,
      or (before the loop starts) computing the budget raised
      `ZeroDivisionError`. */
  datatype Stop = Fits | Exhausted | Stuck | Failed | NoBudget

  datatype Outcome = Outcome(selected: seq<int>, stop: Stop)

  /** The repair step as a function of the (sorted) selection alone; the
      loop never reaches a selection that is not workable. */
  function StepOf(c: Config, ms: seq<Minimum>): seq<int> -> Step
    requires ValidConfig(c)
  {
    sel => if Workable(c, sel) then RepairStep(c, ms, sel) else GiveUp
  }

  /** A step only ever adds an unselected, valid index. */
  ghost predicate StepSound(step: seq<int> -> Step, n: int)
  {
    forall sel :: Sorting.StrictlyIncreasing(sel) && ValidIndices(sel, n) && step(sel).Add? ==>
      step(sel).idx !in sel && 0 <= step(sel).idx < n
  }

  lemma StepOfSound(c: Config, ms: seq<Minimum>)
    requires ValidConfig(c)
    ensures StepSound(StepOf(c, ms), |c.positions|)
  {
  }

  /** `for _ in range(fuel)`: apply `step` to the sorted selection until
      it does not add an index. */
  function Run(step: seq<int> -> Step, sel: seq<int>, fuel: nat): Outcome
    decreases fuel
  {
    if fuel == 0 then Outcome(sel, Exhausted)
    else
      match step(sel)
      case Done => Outcome(sel, Fits)
      case GiveUp => Outcome(sel, Stuck)
      case NoPositions => Outcome(sel, Failed)
      case Add(i) => Run(step, Sorting.InsertAsc(i, sel), fuel - 1)
  }

  /** The loop only inserts: the final selection is sorted, of valid
      indices, keeps every starting index and grows by at most `fuel`. */
  lemma {:induction false} RunShape(step: seq<int> -> Step, n: int, sel: seq<int>, fuel: nat)
    requires StepSound(step, n) && Sorting.StrictlyIncreasing(sel) && ValidIndices(sel, n)
    ensures var r := Run(step, sel, fuel);
      && Sorting.StrictlyIncreasing(r.selected) && ValidIndices(r.selected, n)
      && |sel| <= |r.selected| <= |sel| + fuel
      && forall x :: x in sel ==> x in r.selected
    decreases fuel
  {
    if fuel > 0 && step(sel).Add? {
      var next := Sorting.InsertAsc(step(sel).idx, sel);
      Sorting.InsertAscSorted(step(sel).idx, sel);
      SameIndices(next, sel + [step(sel).idx], n);
      RunShape(step, n, next, fuel - 1);
    }
  }

  /** How the loop ended is what the step said about the final selection,
      and running out of iterations means one index was added in each. */
  lemma {:induction false} RunStops(step: seq<int> -> Step, sel: seq<int>, fuel: nat)
    ensures var r := Run(step, sel, fuel);
      && (r.stop == Fits ==> step(r.selected) == Done)
      && (r.stop == Stuck ==> step(r.selected) == GiveUp)
      && (r.stop == Failed ==> step(r.selected) == NoPositions)
      && (r.stop == Exhausted ==> |r.selected| == |sel| + fuel)
    decreases fuel
  {
    if fuel > 0 && step(sel).Add? {
      RunStops(step, Sorting.InsertAsc(step(sel).idx, sel), fuel - 1);
    }
  }

  /** A step that adds nothing ends the loop on the selection it saw. */
  lemma RunHalt(step: seq<int> -> Step, sel: seq<int>, fuel: nat)
    requires !step(sel).Add?
    ensures Run(step, sel, fuel).selected == sel
    ensures Run(step, sel, fuel).stop == Failed <==> fuel > 0 && step(sel) == NoPositions
  {
  }

  /** Up to `fuel` repair iterations starting from `sel`. */
  function RepairLoop(c: Config, ms: seq<Minimum>, sel: seq<int>, fuel: nat): (r: Outcome)
    requires ValidConfig(c) && Workable(c, sel)
    ensures Workable(c, r.selected)
    ensures |sel| <= |r.selected| <= |sel| + fuel
    ensures forall x :: x in sel ==> x in r.selected
  {
    StepOfSound(c, ms);
    RunShape(StepOf(c, ms), |c.positions|, sel, fuel);
    Run(StepOf(c, ms), sel, fuel)
  }

  /** How the repair loop ended says what holds of the final selection:
      every segment fits, or one index was added per iteration until the
      bound, or the last iteration gave up (at the midpoint, by
      `RepairFallbacks`), or there were no positions. */
  lemma RepairLoopStops(c: Config, ms: seq<Minimum>, sel: seq<int>, fuel: nat)
    requires ValidConfig(c) && Workable(c, sel)
    ensures var r := RepairLoop(c, ms, sel, fuel);
      && (r.stop == Fits ==> AllFit(SelectionCuts(c, r.selected), c.maxSegSec))
      && (r.stop == Exhausted ==> |r.selected| == |sel| + fuel)
      && (r.stop == Stuck ==> RepairStep(c, ms, r.selected) == GiveUp)
      && (r.stop == Failed ==> |c.positions| == 0)
  {
    StepOfSound(c, ms);
    var r := Run(StepOf(c, ms), sel, fuel);
    RunStops(StepOf(c, ms), sel, fuel);
    RunShape(StepOf(c, ms), |c.positions|, sel, fuel);
    assert StepOf(c, ms)(r.selected) == RepairStep(c, ms, r.selected);
  }

  // --------------------------------------------------------- whole selector

  /** The configuration `select_boundaries` works with. */
  function ConfigOf(positions: seq<int>, duration: int, stepSec: int, maxSegSec: int, minSegSec: int,
                    buckets: Buckets, bucketSec: int): Config
    requires stepSec > 0 && bucketSec > 0
  {
    Config(positions, duration, stepSec, maxSegSec, minSegSec, Splitter(buckets, bucketSec),
           MinGap(minSegSec, stepSec))
  }

  /** `content_split_point(buckets, bucket_sec, s, e, margin)` with its
      default analysis window. */
  function Splitter(buckets: Buckets, bucketSec: int): (int, int, int) -> Content.Split
    requires bucketSec > 0
  {
    (s: int, e: int, margin: int) => Content.ContentSplit(buckets, bucketSec, s, e, margin, AnalysisWindow)
  }

  /** `c.split` is `content_split_point` over these buckets; the trigger
      keeps the content split folded until a proof mentions it. */
  ghost predicate SplitsBy(c: Config, buckets: Buckets, bucketSec: int)
    requires bucketSec > 0
  {
    forall s, e, margin {:trigger Content.ContentSplit(buckets, bucketSec, s, e, margin, AnalysisWindow)} ::
      c.split(s, e, margin) == Content.ContentSplit(buckets, bucketSec, s, e, margin, AnalysisWindow)
  }

  /** `c` is the configuration of a `select_boundaries` call with these arguments. */
  ghost predicate Configured(c: Config, positions: seq<int>, duration: int, stepSec: int, maxSegSec: int,
                             minSegSec: int, buckets: Buckets, bucketSec: int)
    requires stepSec > 0 && bucketSec > 0
  {
    && c.positions == positions && c.duration == duration && c.stepSec == stepSec
    && c.maxSegSec == maxSegSec && c.minSegSec == minSegSec && c.minGap == MinGap(minSegSec, stepSec)
    && SplitsBy(c, buckets, bucketSec)
  }

  lemma ConfigOfConfigured(positions: seq<int>, duration: int, stepSec: int, maxSegSec: int,
                           minSegSec: int, buckets: Buckets, bucketSec: int)
    requires stepSec > 0 && bucketSec > 0
    ensures Configured(ConfigOf(positions, duration, stepSec, maxSegSec, minSegSec, buckets, bucketSec),
                       positions, duration, stepSec, maxSegSec, minSegSec, buckets, bucketSec)
  {
  }

  /** Phase 1 over the ranked minima of the curve. */
  function NaturalCuts(smoothed: seq<real>, gap: int, nd: real): seq<int>
  {
    Phase1(Minima(smoothed), nd, gap, [])
  }

  /** Phase-1 indices are local minima of the curve, pairwise at least `gap` apart. */
  lemma NaturalCutsValid(smoothed: seq<real>, gap: int, nd: real)
    requires gap >= 1
    ensures Spaced(NaturalCuts(smoothed, gap, nd), gap)
    ensures Distinct(NaturalCuts(smoothed, gap, nd))
    ensures forall k :: 0 <= k < |NaturalCuts(smoothed, gap, nd)| ==>
      IsLocalMin(smoothed, NaturalCuts(smoothed, gap, nd)[k])
  {
    var ms := Minima(smoothed);
    var p1 := NaturalCuts(smoothed, gap, nd);
    MinimaExact(smoothed);
    Phase1Extends(ms, nd, gap, []);
    Phase1Spaced(ms, nd, gap, []);
    SpacedDistinct(p1, gap);
    forall k | 0 <= k < |p1| ensures IsLocalMin(smoothed, p1[k]) {
      var j :| 0 <= j < FirstShallow(ms, nd) && ms[j].index == p1[k];
    }
  }

  /** Phase 1's indices in ascending order, where the repair loop starts. */
  function NaturalStart(smoothed: seq<real>, gap: int, nd: real, n: int): (r: seq<int>)
    requires gap >= 1 && |smoothed| <= n + 1
    ensures Sorting.StrictlyIncreasing(r) && ValidIndices(r, n)
    ensures forall x :: x in NaturalCuts(smoothed, gap, nd) <==> x in r
    ensures |r| == |NaturalCuts(smoothed, gap, nd)|
  {
    var p1 := NaturalCuts(smoothed, gap, nd);
    NaturalCutsValid(smoothed, gap, nd);
    var start := Sorting.SortAsc(p1);
    SameIndices(start, p1, n);
    start
  }

  /** The whole selection, in ascending order: phase 1, then at most
      `MaxIter` repairs, or no repair when that budget cannot be computed. */
  function Selection(smoothed: seq<real>, c: Config, nd: real): Outcome
    requires ValidConfig(c) && c.minGap >= 1 && |smoothed| <= |c.positions| + 1
  {
    var start := NaturalStart(smoothed, c.minGap, nd, |c.positions|);
    match MaxIter(c.duration, c.maxSegSec)
    case None => Outcome(start, NoBudget)
    case Some(budget) => RepairLoop(c, Minima(smoothed), start, budget)
  }

  /** The loop never reports a missing budget; only `Selection` does. */
  lemma {:induction false} RunBudgeted(step: seq<int> -> Step, sel: seq<int>, fuel: nat)
    ensures Run(step, sel, fuel).stop != NoBudget
    decreases fuel
  {
    if fuel > 0 && step(sel).Add? {
      RunBudgeted(step, Sorting.InsertAsc(step(sel).idx, sel), fuel - 1);
    }
  }

  /** The boundaries `select_boundaries` returns: ascending, without
      duplicates, valid indices into `positions`, every phase-1 index kept,
      and at most `MaxIter` more than phase 1 chose; a zero `max_seg_sec`
      stops it before any repair. */
  lemma SelectionShape(smoothed: seq<real>, c: Config, nd: real)
    requires ValidConfig(c) && c.minGap >= 1 && |smoothed| <= |c.positions| + 1
    ensures Sorting.StrictlyIncreasing(Selection(smoothed, c, nd).selected)
    ensures ValidIndices(Selection(smoothed, c, nd).selected, |c.positions|)
    ensures forall x :: x in NaturalCuts(smoothed, c.minGap, nd) ==> x in Selection(smoothed, c, nd).selected
    ensures MaxIter(c.duration, c.maxSegSec).Some? ==>
      |Selection(smoothed, c, nd).selected| <= |NaturalCuts(smoothed, c.minGap, nd)| + MaxIter(c.duration, c.maxSegSec).value
    ensures Selection(smoothed, c, nd).stop == NoBudget <==> c.maxSegSec == 0
  {
    var start := NaturalStart(smoothed, c.minGap, nd, |c.positions|);
    var r := Selection(smoothed, c, nd);
    match MaxIter(c.duration, c.maxSegSec)
    case None =>
      assert r == Outcome(start, NoBudget);
    case Some(budget) =>
      assert r == RepairLoop(c, Minima(smoothed), start, budget);
      RunBudgeted(StepOf(c, Minima(smoothed)), start, budget);
  }

  // ------------------------------------------------------------ the method

  /** Whether an index is far from a selection depends only on its members. */
  lemma FarFromSame(idx: int, a: seq<int>, b: seq<int>, gap: int)
    requires forall y :: y in a <==> y in b
    ensures FarFrom(idx, a, gap) <==> FarFrom(idx, b, gap)
  {
    if FarFrom(idx, a, gap) {
      forall k | 0 <= k < |b| ensures Abs(idx - b[k]) >= gap {
        assert b[k] in b;
      }
    }
    if FarFrom(idx, b, gap) {
      forall k | 0 <= k < |a| ensures Abs(idx - a[k]) >= gap {
        assert a[k] in a;
      }
    }
  }

  /** Phase 2 finds the same minimum whether it scans the list or its sorted copy. */
  lemma {:induction false} FirstFreeSame(ms: seq<Minimum>, a: seq<int>, b: seq<int>, positions: seq<int>, sp: Span, gap: int)
    requires forall y :: y in a <==> y in b
    ensures FirstFree(ms, a, positions, sp, gap) == FirstFree(ms, b, positions, sp, gap)
  {
    if ms != [] {
      FarFromSame(ms[0].index, a, b, gap);
      FirstFreeSame(ms[1..], a, b, positions, sp, gap);
    }
  }

  /** The scan for the first over-long segment, stopping at the first hit. */
  method FindLongGap(cuts: seq<int>, maxSeg: int) returns (longSeg: Option<nat>)
    ensures longSeg == FirstLongGap(cuts, maxSeg)
  {
    longSeg := None;
    var j := 0;
    while j < |cuts| - 1
      invariant 0 <= j <= Max(0, |cuts| - 1)
      invariant forall k :: 0 <= k < j ==> GapAt(cuts, k) <= maxSeg
    {
      if cuts[j + 1] - cuts[j] > maxSeg {
        longSeg := Some(j);
        ghost var first := FirstLongGap(cuts, maxSeg);
        assert !AllFit(cuts, maxSeg) by { assert GapAt(cuts, j) > maxSeg; }
        assert GapAt(cuts, j) > maxSeg;
        assert first.Some?;
        assert GapAt(cuts, first.value) > maxSeg;
        assert first.value >= j;
        assert first.value <= j;
        return;
      }
      j := j + 1;
    }
  }

  /** Phase 2: the first minimum, in rank order, that is unselected, inside
      the span and far from every selected index. */
  method FindFreeMinimum(ms: seq<Minimum>, selected: seq<int>, positions: seq<int>, sp: Span, gap: int)
    returns (best: Option<int>)
    requires forall k :: 0 <= k < |ms| ==> 0 <= ms[k].index < |positions|
    ensures FirstFree(ms, selected, positions, sp, gap).None? ==> best.None?
    ensures FirstFree(ms, selected, positions, sp, gap).Some? ==>
      best == Some(ms[FirstFree(ms, selected, positions, sp, gap).value].index)
  {
    best := None;
    for k := 0 to |ms|
      invariant forall l :: 0 <= l < k ==> !Free(ms[l], selected, positions, sp, gap)
    {
      var idx := ms[k].index;
      if idx in selected {
        continue;
      }
      var pos := positions[idx];
      if pos <= sp.s + sp.margin || pos >= sp.e - sp.margin {
        continue;
      }
      if FarFrom(idx, selected, gap) {
        best := Some(idx);
        return;
      }
    }
  }

  /** `min(range(len(positions)), key=lambda i: abs(positions[i] - target))` */
  lemma ClosestExtend(positions: seq<int>, target: int, i: int)
    requires 1 <= i < |positions|
    ensures var c := Closest(positions[..i], target);
      Closest(positions[..i + 1], target) == if Abs(positions[i] - target) < Abs(positions[c] - target) then i else c
  {
    var prefix := positions[..i + 1];
    assert prefix[..i] == positions[..i];
  }

  method ClosestIndex(positions: seq<int>, target: int) returns (closest: nat)
    requires |positions| > 0
    ensures closest == Closest(positions, target)
  {
    closest := 0;
    for i := 1 to |positions|
      invariant closest == Closest(positions[..i], target)
    {
      ClosestExtend(positions, target, i);
      if Abs(positions[i] - target) < Abs(positions[closest] - target) {
        closest := i;
      }
    }
    assert positions[..|positions|] == positions;
  }

  /** One pass of the repair loop over the Python list `selected`: the
      same step as `RepairStep` on its sorted copy. */
  method RepairOnce(positions: seq<int>, duration: int, stepSec: int, maxSegSec: int, minSegSec: int,
                    buckets: Buckets, bucketSec: int, minima: seq<Minimum>, selected: seq<int>, ghost c: Config)
    returns (step: Step)
    requires stepSec > 0 && bucketSec > 0
    requires Configured(c, positions, duration, stepSec, maxSegSec, minSegSec, buckets, bucketSec)
    requires Distinct(selected) && ValidIndices(selected, |positions|)
    requires forall k :: 0 <= k < |minima| ==> 0 <= minima[k].index < |positions|
    ensures Workable(c, Sorting.SortAsc(selected)) && step == RepairStep(c, minima, Sorting.SortAsc(selected))
    ensures step == StepOf(c, minima)(Sorting.SortAsc(selected))
  {
    var selectedSorted := Sorting.SortAsc(selected);
    SameIndices(selectedSorted, selected, |positions|);
    var cuts := CutsOf(positions, selectedSorted, duration);
    var longSeg := FindLongGap(cuts, maxSegSec);
    if longSeg.None? {
      return Done;
    }
    var sp := SpanOf(cuts[longSeg.value], cuts[longSeg.value + 1], minSegSec);
    assert LongSpan(c, selectedSorted) == Some(sp);
    var gap := MinGap(minSegSec, stepSec);
    var best := FindFreeMinimum(minima, selected, positions, sp, gap);
    FirstFreeSame(minima, selected, selectedSorted, positions, sp, gap);
    if best.Some? {
      return Add(best.value);
    }
    var split := SplitSpan(buckets, bucketSec, sp, c);
    if |positions| == 0 {
      return NoPositions;
    }
    step := FallbackOnce(positions, stepSec, split, selected, sp, c, selectedSorted);
  }

  /** `content_split_point(buckets, bucket_sec, s, e, margin)` for the span. */
  method SplitSpan(buckets: Buckets, bucketSec: int, sp: Span, ghost c: Config) returns (split: Content.Split)
    requires bucketSec > 0 && SplitsBy(c, buckets, bucketSec)
    ensures split == c.split(sp.s, sp.e, sp.margin)
  {
    var splitPos, change := Content.ContentSplitPoint(buckets, bucketSec, sp.s, sp.e, sp.margin, AnalysisWindow);
    split := Content.Split(splitPos, change);
  }

  /** Phase 3, then the midpoint, over the Python list `selected`. */
  method FallbackOnce(positions: seq<int>, stepSec: int, split: Content.Split,
                      selected: seq<int>, sp: Span, ghost c: Config, ghost sel: seq<int>)
    returns (step: Step)
    requires stepSec > 0 && |positions| > 0
    requires c.positions == positions && c.stepSec == stepSec && split == c.split(sp.s, sp.e, sp.margin)
    requires ValidConfig(c) && forall y :: y in selected <==> y in sel
    ensures step == Fallback(c, sel, sp)
  {
    ghost var viaContent := ContentCandidate(c, sp);
    if split.pos.Some? && split.change > MinChange {
      var closest := ClosestIndex(positions, split.pos.value);
      assert viaContent == Some(closest);
      if closest !in selected && positions[closest] > sp.s + sp.margin && positions[closest] < sp.e - sp.margin {
        assert Acceptable(closest, sel, c.positions, sp);
        return Add(closest);
      }
      assert !Acceptable(closest, sel, c.positions, sp);
    } else {
      assert viaContent.None?;
    }
    var mid := (sp.s + sp.e) / 2 / stepSec * stepSec;
    assert mid == Midpoint(sp, c.stepSec);
    var closest := ClosestIndex(positions, mid);
    if closest !in selected && positions[closest] > sp.s + sp.margin && positions[closest] < sp.e - sp.margin {
      assert Acceptable(closest, sel, c.positions, sp);
      return Add(closest);
    }
    assert !Acceptable(closest, sel, c.positions, sp);
    return GiveUp;
  }

  /** `sorted(selected + [idx])` inserts `idx` into `sorted(selected)`. */
  lemma SortAscAppend(selected: seq<int>, idx: int)
    requires Distinct(selected) && idx !in selected
    ensures Distinct(selected + [idx])
    ensures Sorting.SortAsc(selected + [idx]) == Sorting.InsertAsc(idx, Sorting.SortAsc(selected))
  {
    var t := selected + [idx];
    assert t[..|t| - 1] == selected;
  }

  /** Phase 1 of `select_boundaries`: greedy natural valleys. */
  method NaturalValleys(minima: seq<Minimum>, naturalDepth: real, minGap: int) returns (selected: seq<int>)
    ensures selected == Phase1(minima, naturalDepth, minGap, [])
  {
    selected := [];
    var k := 0;
    while k < |minima|
      invariant 0 <= k <= |minima|
      invariant Phase1(minima[k..], naturalDepth, minGap, selected) == Phase1(minima, naturalDepth, minGap, [])
    {
      if minima[k].depth < naturalDepth {
        break;
      }
      if FarFrom(minima[k].index, selected, minGap) {
        selected := selected + [minima[k].index];
      }
      assert minima[k..][1..] == minima[k + 1..];
      k := k + 1;
    }
  }

  /** Phases 2 and 3 of `select_boundaries`, reached once the budget
      `maxIter` has been computed: at most `maxIter` repairs of the Python
      list `selected`, then `sorted(selected)`; `None` stands for the
      `ValueError` of `min` over an empty `positions`. */
  method RepairSegments(positions: seq<int>, duration: int, stepSec: int, maxSegSec: int, minSegSec: int,
                        buckets: Buckets, bucketSec: int, minima: seq<Minimum>, selected: seq<int>, maxIter: nat,
                        ghost c: Config)
    returns (boundaries: Option<seq<int>>)
    requires stepSec > 0 && bucketSec > 0 && MaxIter(duration, maxSegSec) == Some(maxIter)
    requires Configured(c, positions, duration, stepSec, maxSegSec, minSegSec, buckets, bucketSec)
    requires Distinct(selected) && ValidIndices(selected, |positions|)
    requires forall k :: 0 <= k < |minima| ==> 0 <= minima[k].index < |positions|
    ensures Workable(c, Sorting.SortAsc(selected))
    ensures var r := RepairLoop(c, minima, Sorting.SortAsc(selected), maxIter);
      boundaries == if r.stop == Failed then None else Some(r.selected)
  {
    ghost var step := StepOf(c, minima);
    SameIndices(Sorting.SortAsc(selected), selected, |positions|);
    ghost var goal := RepairLoop(c, minima, Sorting.SortAsc(selected), maxIter);
    assert goal == Run(step, Sorting.SortAsc(selected), maxIter);
    StepOfSound(c, minima);
    var current := selected;
    ghost var left: nat := maxIter;
    for i := 0 to maxIter
      invariant left == maxIter - i
      invariant Distinct(current) && ValidIndices(current, |positions|)
      invariant Run(step, Sorting.SortAsc(current), left) == goal
    {
      var next := RepairOnce(positions, duration, stepSec, maxSegSec, minSegSec, buckets, bucketSec, minima, current, c);
      match next
      case Done =>
        RunHalt(step, Sorting.SortAsc(current), left);
        return Some(Sorting.SortAsc(current));
      case GiveUp =>
        RunHalt(step, Sorting.SortAsc(current), left);
        return Some(Sorting.SortAsc(current));
      case NoPositions =>
        RunHalt(step, Sorting.SortAsc(current), left);
        return None;
      case Add(idx) =>
        RunAppend(step, |positions|, current, idx, left);
        current := current + [idx];
        left := left - 1;
    }
    assert left == 0;
    RunOut(step, Sorting.SortAsc(current));
    return Some(Sorting.SortAsc(current));
  }

  /** With no iterations left the loop stops with the selection as it is. */
  lemma RunOut(step: seq<int> -> Step, sel: seq<int>)
    ensures Run(step, sel, 0) == Outcome(sel, Exhausted)
  {
  }

  /** Appending the index a step adds to the Python list continues the
      loop from its sorted insertion. */
  lemma RunAppend(step: seq<int> -> Step, n: int, current: seq<int>, idx: int, fuel: nat)
    requires StepSound(step, n) && Distinct(current) && ValidIndices(current, n)
    requires fuel > 0 && step(Sorting.SortAsc(current)) == Add(idx)
    ensures Distinct(current + [idx]) && ValidIndices(current + [idx], n)
    ensures Run(step, Sorting.SortAsc(current + [idx]), fuel - 1) == Run(step, Sorting.SortAsc(current), fuel)
  {
    var sorted := Sorting.SortAsc(current);
    SameIndices(sorted, current, n);
    assert idx !in current;
    SortAscAppend(current, idx);
  }

  /** `select_boundaries`; `None` stands for the `ValueError` that `min`
      raises over an empty `positions`. The result is the model's
      `Selection`, whose properties `SelectionShape` and `RepairLoopStops`
      state. */
  method SelectBoundaries(smoothed: seq<real>, positions: seq<int>, duration: int, stepSec: int,
                          maxSegSec: int, minSegSec: int, buckets: Buckets, bucketSec: int,
                          naturalDepth: real)
    returns (boundaries: Option<seq<int>>)
    requires stepSec > 0 && bucketSec > 0 && |smoothed| <= |positions| + 1
    ensures var r := Selection(smoothed, ConfigOf(positions, duration, stepSec, maxSegSec, minSegSec, buckets, bucketSec), naturalDepth);
      boundaries == if r.stop == Failed || r.stop == NoBudget then None else Some(r.selected)
  {
    var minima := CollectMinima(smoothed);
    var minGap := MinGap(minSegSec, stepSec);
    var selected := NaturalValleys(minima, naturalDepth, minGap);
    NaturalCutsValid(smoothed, minGap, naturalDepth);
    assert forall j :: 0 <= j < |minima| ==> 0 <= minima[j].index < |positions| by {
      assert OnlyMinima(smoothed, minima);
    }
    var maxIter := MaxIter(duration, maxSegSec);
    ghost var c := ConfigOf(positions, duration, stepSec, maxSegSec, minSegSec, buckets, bucketSec);
    if maxIter.None? {
      assert Selection(smoothed, c, naturalDepth).stop == NoBudget;
      return None;
    }
    ConfigOfConfigured(positions, duration, stepSec, maxSegSec, minSegSec, buckets, bucketSec);
    boundaries := RepairSegments(positions, duration, stepSec, maxSegSec, minSegSec, buckets, bucketSec,
                                 minima, selected, maxIter.value, c);
    ghost var start := NaturalStart(smoothed, minGap, naturalDepth, |positions|);
    assert start == Sorting.SortAsc(selected);
    assert Selection(smoothed, c, naturalDepth) == RepairLoop(c, minima, start, maxIter.value);
    RunBudgeted(StepOf(c, minima), start, maxIter.value);
  }
}

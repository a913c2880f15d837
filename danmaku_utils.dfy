/** Shared helpers of the analysis package (`_internal/utils.py`): the
    `MM:SS` timestamp, the excitement label of a peak against the average
    peak, and the evenly spread, de-duplicated message samples of a
    segment. */
module DanmakuUtils {
  import opened PyBase
  import opened PyStr
  import opened Density

  // -------------------------------------------------------------- fmt_ts

  /** `f"{sec // 60:02d}:{sec % 60:02d}"` */
  function FmtTs(sec: int): string
  {
    Pad2(sec / 60) + ":" + Pad2(sec % 60)
  }

  /** A timestamp is a single line. */
  lemma FmtTsOneLine(sec: int)
    ensures '\n' !in FmtTs(sec)
  {
    IntToStrOneLine(sec / 60);
    IntToStrOneLine(sec % 60);
  }

  /** `f"{n:02d}"` of a non-negative number: at least two digits that read back as `n`. */
  lemma Pad2Value(n: nat)
    ensures var r := Pad2(n);
      |r| >= 2 && (forall k :: 0 <= k < |r| ==> IsDigit(r[k])) && DecimalValue(r) == n
  {
    DecimalRoundTrip(n);
    if n < 10 {
      DecimalValueLeadingZero(Decimal(n));
    }
  }

  /** A non-negative time reads back from its text: the digits before the
      colon are the minutes, the two after it the seconds `00`-`59`. */
  lemma FmtTsFields(sec: nat)
    ensures var r := FmtTs(sec);
      && |r| >= 5 && r[|r| - 3] == ':'
      && (forall k :: 0 <= k < |r| && k != |r| - 3 ==> IsDigit(r[k]))
      && DecimalValue(r[|r| - 2..]) < 60
      && DecimalValue(r[..|r| - 3]) * 60 + DecimalValue(r[|r| - 2..]) == sec
  {
    var m, s := Pad2(sec / 60), Pad2(sec % 60);
    Pad2Value(sec / 60);
    Pad2Digits(sec % 60);
    var r := FmtTs(sec);
    assert r == m + ":" + s;
    assert r[..|r| - 3] == m && r[|r| - 2..] == s;
  }

  /** Below 100 minutes the text is exactly `MM:SS`. */
  lemma FmtTsWidth(sec: nat)
    requires sec < 6000
    ensures |FmtTs(sec)| == 5
  {
    Pad2Digits(sec / 60);
    Pad2Digits(sec % 60);
  }

  // ---------------------------------------------------------- heat_label

  /** The band of `peak / avg_peak`: 3 from 2.0, 2 from 1.3, 1 from 0.7, else 0. */
  function HeatBand(ratio: real): (r: nat)
    ensures r <= 3
    ensures r == 3 <==> ratio >= 2.0
    ensures r >= 2 <==> ratio >= 1.3
    ensures r >= 1 <==> ratio >= 0.7
  {
    if ratio >= 2.0 then 3 else if ratio >= 1.3 then 2 else if ratio >= 0.7 then 1 else 0
  }

  function BandLabel(band: nat): string
  {
    if band >= 3 then "★★★ 超高能" else if band == 2 then "★★ 高能" else if band == 1 then "★ 普通" else "- 平淡"
  }

  /** `heat_label(peak, avg_peak)` */
  function HeatLabel(peak: real, avgPeak: real): string
  {
    if avgPeak <= 0.0 then "" else BandLabel(HeatBand(peak / avgPeak))
  }

  /** The label is empty exactly when the average peak is not positive;
      otherwise it names the band of the ratio. */
  lemma HeatLabelCases(peak: real, avgPeak: real)
    ensures HeatLabel(peak, avgPeak) == "" <==> avgPeak <= 0.0
    ensures avgPeak > 0.0 ==> HeatLabel(peak, avgPeak) == BandLabel(HeatBand(peak / avgPeak))
  {
  }

  /** A higher peak against the same average never gets a lower band. */
  lemma HeatBandMonotone(peak1: real, peak2: real, avgPeak: real)
    requires avgPeak > 0.0 && peak1 <= peak2
    ensures HeatBand(peak1 / avgPeak) <= HeatBand(peak2 / avgPeak)
  {
    assert peak1 / avgPeak <= peak2 / avgPeak;
  }

  /** The four bands have four different labels. */
  lemma BandLabelInjective(b1: nat, b2: nat)
    requires b1 <= 3 && b2 <= 3 && b1 != b2
    ensures BandLabel(b1) != BandLabel(b2)
  {
    assert BandLabel(b1)[0] != BandLabel(b2)[0] || |BandLabel(b1)| != |BandLabel(b2)|;
  }

  // ----------------------------------------------------- segment_samples

  /** `text[:30]`, the key samples are de-duplicated by. */
  function Key(text: string): string { Prefix(text, 30) }

  /** `list(range(0, n, step))[:count]` with `step = max(1, n // count)`. */
  function Picks(n: nat, count: int): seq<int>
    requires count != 0
  {
    Prefix(Range(0, n, Max(1, FloorDiv(n, count))), count)
  }

  /** The first of `texts` whose key is not yet seen. */
  function FirstUnseen(texts: seq<string>, seen: set<string>): (r: Option<string>)
    ensures r.Some? ==> r.value in texts && Key(r.value) !in seen
    ensures r.None? ==> forall t :: t in texts ==> Key(t) in seen
  {
    if texts == [] then None
    else if Key(texts[0]) !in seen then Some(texts[0])
    else FirstUnseen(texts[1..], seen)
  }

  /** `buckets.get(ts, [])[:3]`: the texts a pick may sample from. */
  function Candidates3(buckets: Buckets, ts: int): seq<string>
  {
    Prefix(BucketAt(buckets, ts), 3)
  }

  /** The keys of the samples taken so far: the `seen` set. */
  function Keys(samples: seq<string>): set<string>
  {
    set k | 0 <= k < |samples| :: Key(samples[k])
  }

  /** What pick `idx` adds: the 80-character cut of the first of its
      candidate texts whose key is unseen, if any. */
  function PickSample(buckets: Buckets, ts: int, samples: seq<string>): seq<string>
  {
    var found := FirstUnseen(Candidates3(buckets, ts), Keys(samples));
    if found.Some? then samples + [Prefix(found.value, 80)] else samples
  }

  /** The sampling loop from pick `picks[0]` on, with the samples so far. */
  function SampleFrom(buckets: Buckets, tsList: seq<int>, picks: seq<int>, count: int,
                      samples: seq<string>): seq<string>
    requires forall k :: 0 <= k < |picks| ==> 0 <= picks[k] < |tsList|
    decreases |picks|
  {
    if picks == [] then samples
    else
      var samples' := PickSample(buckets, tsList[picks[0]], samples);
      if |samples'| >= count then samples' else SampleFrom(buckets, tsList, picks[1..], count, samples')
  }

  lemma PicksValid(n: nat, count: int)
    requires count != 0
    ensures forall k :: 0 <= k < |Picks(n, count)| ==> 0 <= Picks(n, count)[k] < n
  {
  }

  /** `segment_samples(buckets, ts_list, count)`; an empty `ts_list` returns
      before the division, any other divides by `count`. */
  function Samples(buckets: Buckets, tsList: seq<int>, count: int): seq<string>
    requires tsList == [] || count != 0
  {
    if tsList == [] then []
    else
      PicksValid(|tsList|, count);
      SampleFrom(buckets, tsList, Picks(|tsList|, count), count, [])
  }

  /** The picks are `0, step, 2 * step, ...` below `n`, at most `count` of them. */
  lemma PicksSpaced(n: nat, count: int)
    requires count > 0
    ensures var step := Max(1, n / count);
      && |Picks(n, count)| == Min(count, (n + step - 1) / step)
      && forall k :: 0 <= k < |Picks(n, count)| ==> Picks(n, count)[k] == k * step
  {
    var step := Max(1, n / count);
    RangeSpec(0, n, step);
    var r := Range(0, n, step);
    if n == 0 {
      assert r == [];
    }
  }

  /** No two samples share their 30-character key. */
  ghost predicate KeysDistinct(samples: seq<string>)
  {
    forall i, j :: 0 <= i < j < |samples| ==> Key(samples[i]) != Key(samples[j])
  }

  /** Cutting at 80 keeps the 30-character key. */
  lemma KeyOfSample(t: string)
    ensures Key(Prefix(t, 80)) == Key(t)
  {
  }

  /** A pick adds at most one sample, at most 80 characters long, cut from
      one of its candidate texts, with a key not taken before. */
  lemma PickSampleShape(buckets: Buckets, ts: int, samples: seq<string>)
    ensures var r := PickSample(buckets, ts, samples);
      && r[..|samples|] == samples && |samples| <= |r| <= |samples| + 1
      && (|r| > |samples| ==> |r[|samples|]| <= 80 && r[|samples|] in Cuts80(Candidates3(buckets, ts)))
      && (KeysDistinct(samples) ==> KeysDistinct(r))
  {
    var found := FirstUnseen(Candidates3(buckets, ts), Keys(samples));
    if found.Some? {
      var r := PickSample(buckets, ts, samples);
      KeyOfSample(found.value);
      Cuts80Member(Candidates3(buckets, ts), found.value);
      assert Key(r[|samples|]) !in Keys(samples);
      forall i | 0 <= i < |samples| ensures Key(r[i]) != Key(r[|samples|]) {
        assert Key(samples[i]) in Keys(samples);
      }
    }
  }

  /** The sample a pick contributes is the 80-character cut of one of the
      first three texts of its bucket. */
  ghost predicate FromPicks(s: string, buckets: Buckets, tsList: seq<int>, picks: seq<int>)
    requires forall k :: 0 <= k < |picks| ==> 0 <= picks[k] < |tsList|
  {
    exists k :: 0 <= k < |picks| && s in Cuts80(Candidates3(buckets, tsList[picks[k]]))
  }

  function Cuts80(texts: seq<string>): seq<string>
  {
    if texts == [] then [] else [Prefix(texts[0], 80)] + Cuts80(texts[1..])
  }

  lemma {:induction false} Cuts80Member(texts: seq<string>, t: string)
    requires t in texts
    ensures Prefix(t, 80) in Cuts80(texts)
  {
    if texts[0] != t {
      Cuts80Member(texts[1..], t);
    }
  }

  /** The loop only appends, at most one sample per pick, and stops by `count`. */
  lemma {:induction false} SampleFromGrows(buckets: Buckets, tsList: seq<int>, picks: seq<int>, count: int,
                                           samples: seq<string>)
    requires forall k :: 0 <= k < |picks| ==> 0 <= picks[k] < |tsList|
    ensures var r := SampleFrom(buckets, tsList, picks, count, samples);
      && |samples| <= |r| <= |samples| + |picks| && r[..|samples|] == samples
      && (|samples| < count ==> |r| <= count)
    decreases |picks|
  {
    if picks != [] {
      var next := PickSample(buckets, tsList[picks[0]], samples);
      PickSampleShape(buckets, tsList[picks[0]], samples);
      if |next| < count {
        SampleFromGrows(buckets, tsList, picks[1..], count, next);
        var r := SampleFrom(buckets, tsList, picks[1..], count, next);
        assert r[..|samples|] == next[..|samples|];
      }
    }
  }

  /** Every sample the loop adds is short, cut from a picked bucket, and
      keyed apart from all others. */
  lemma {:induction false} SampleFromSamples(buckets: Buckets, tsList: seq<int>, picks: seq<int>, count: int,
                                             samples: seq<string>)
    requires forall k :: 0 <= k < |picks| ==> 0 <= picks[k] < |tsList|
    requires KeysDistinct(samples)
    ensures var r := SampleFrom(buckets, tsList, picks, count, samples);
      && KeysDistinct(r)
      && forall k :: |samples| <= k < |r| ==> |r[k]| <= 80 && FromPicks(r[k], buckets, tsList, picks)
    decreases |picks|
  {
    if picks != [] {
      var next := PickSample(buckets, tsList[picks[0]], samples);
      PickSampleShape(buckets, tsList[picks[0]], samples);
      var r := SampleFrom(buckets, tsList, picks, count, samples);
      if |next| < count {
        var rest := picks[1..];
        SampleFromSamples(buckets, tsList, rest, count, next);
        SampleFromGrows(buckets, tsList, rest, count, next);
        assert r == SampleFrom(buckets, tsList, rest, count, next);
        forall k | |samples| <= k < |r| ensures |r[k]| <= 80 && FromPicks(r[k], buckets, tsList, picks) {
          if k >= |next| {
            var p :| 0 <= p < |rest| && r[k] in Cuts80(Candidates3(buckets, tsList[rest[p]]));
            assert rest[p] == picks[p + 1];
          } else {
            assert r[k] == next[k];
          }
        }
      }
    }
  }

  /** What `segment_samples` promises: nothing for an empty segment, at
      most `count` samples, each at most 80 characters, no two sharing
      their 30-character key, each cut from one of the first three texts
      of a picked bucket, one per pick at most. */
  lemma SamplesShape(buckets: Buckets, tsList: seq<int>, count: int)
    requires count > 0
    ensures tsList == [] ==> Samples(buckets, tsList, count) == []
    ensures var r := Samples(buckets, tsList, count);
      && |r| <= count
      && (forall k :: 0 <= k < |r| ==> |r[k]| <= 80)
      && KeysDistinct(r)
    ensures tsList != [] ==> var r := Samples(buckets, tsList, count);
      && |r| <= |Picks(|tsList|, count)|
      && forall k :: 0 <= k < |r| ==> FromPicks(r[k], buckets, tsList, Picks(|tsList|, count))
  {
    if tsList != [] {
      PicksValid(|tsList|, count);
      SampleFromGrows(buckets, tsList, Picks(|tsList|, count), count, []);
      SampleFromSamples(buckets, tsList, Picks(|tsList|, count), count, []);
    }
  }

  /** The first text of `texts[j..]` with an unseen key, searched like the
      inner `for text in ...[:3]` loop with its `break`. */
  method FindUnseen(texts: seq<string>, seen: set<string>) returns (found: Option<string>)
    ensures found == FirstUnseen(texts, seen)
  {
    found := None;
    var j := 0;
    while j < |texts|
      invariant 0 <= j <= |texts|
      invariant FirstUnseen(texts, seen) == FirstUnseen(texts[j..], seen)
    {
      var text := texts[j];
      var key := Prefix(text, 30);
      if key !in seen {
        found := Some(text);
        return;
      }
      assert texts[j..][1..] == texts[j + 1..];
      j := j + 1;
    }
  }

  /** One pick of the outer loop: the inner search and the update of
      `seen` and `samples`. */
  method TakeSample(buckets: Buckets, ts: int, samples: seq<string>, seen: set<string>)
    returns (samples': seq<string>, seen': set<string>)
    requires seen == Keys(samples)
    ensures samples' == PickSample(buckets, ts, samples) && seen' == Keys(samples')
  {
    var found := FindUnseen(Prefix(BucketAt(buckets, ts), 3), seen);
    samples', seen' := samples, seen;
    if found.Some? {
      seen' := seen + {Prefix(found.value, 30)};
      samples' := samples + [Prefix(found.value, 80)];
      KeysSnoc(samples, Prefix(found.value, 80));
      KeyOfSample(found.value);
    }
  }

  lemma KeysSnoc(samples: seq<string>, t: string)
    ensures Keys(samples + [t]) == Keys(samples) + {Key(t)}
  {
    var r := samples + [t];
    forall x | x in Keys(r) ensures x in Keys(samples) + {Key(t)} {
      var k :| 0 <= k < |r| && Key(r[k]) == x;
      if k < |samples| {
        assert r[k] == samples[k];
      }
    }
    forall x | x in Keys(samples) ensures x in Keys(r) {
      var k :| 0 <= k < |samples| && Key(samples[k]) == x;
      assert r[k] == samples[k];
    }
    assert Key(r[|samples|]) in Keys(r);
  }

  lemma SampleFromStep(buckets: Buckets, tsList: seq<int>, picks: seq<int>, p: int, count: int, samples: seq<string>)
    requires forall k :: 0 <= k < |picks| ==> 0 <= picks[k] < |tsList|
    requires 0 <= p < |picks|
    ensures var next := PickSample(buckets, tsList[picks[p]], samples);
      SampleFrom(buckets, tsList, picks[p..], count, samples)
        == if |next| >= count then next else SampleFrom(buckets, tsList, picks[p + 1..], count, next)
  {
    assert picks[p..][1..] == picks[p + 1..];
  }

  /** `segment_samples` */
  method SegmentSamples(buckets: Buckets, tsList: seq<int>, count: int) returns (samples: seq<string>)
    requires tsList == [] || count != 0
    ensures samples == Samples(buckets, tsList, count)
  {
    if |tsList| == 0 {
      return [];
    }
    var step := Max(1, FloorDiv(|tsList|, count));
    var pickIndices := Prefix(Range(0, |tsList|, step), count);
    PicksValid(|tsList|, count);
    ghost var goal := Samples(buckets, tsList, count);
    samples := [];
    var seen: set<string> := {};
    for p := 0 to |pickIndices|
      invariant seen == Keys(samples)
      invariant SampleFrom(buckets, tsList, pickIndices[p..], count, samples) == goal
    {
      SampleFromStep(buckets, tsList, pickIndices, p, count, samples);
      samples, seen := TakeSample(buckets, tsList[pickIndices[p]], samples, seen);
      if |samples| >= count {
        return;
      }
    }
  }
}

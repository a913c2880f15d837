/** The summariser around the text pipeline (`danmaku/tools.py`): prompt
    formatting, the batching of `_analyze_interval_via_llm`, the merge of
    batch summaries and the sliding windows of `analyze_danmaku_density`.
    The language model is an oracle `llm` from a request to its raw reply,
    `None` when the call fails. */
module DanmakuTools {
  import opened PyBase
  import opened PyStr
  import Dedupe
  import DanmakuUtils

  type Item = Dedupe.Item

  /** `_BATCH_SIZE`: items per batch summary. */
  const BatchSize: nat := 15
  /** `_MERGE_THRESHOLD`: up to this many items go in one prompt. */
  const OneShotLimit: nat := 25
  /** `_MAX_ITEMS_IN_PROMPT` */
  const MaxItemsInPrompt: nat := 50

  // ---------------------------------------------- _format_danmaku_for_prompt

  /** One prompt line: the text, with ` (x{count})` when it was sent more
      than once. */
  function PromptLine(it: Item): string
  {
    if it.count > 1 then it.text + " (x" + IntToStr(it.count) + ")" else it.text
  }

  function PromptLines(items: seq<Item>): (r: seq<string>)
    ensures |r| == |items|
    ensures forall k :: 0 <= k < |r| ==> r[k] == PromptLine(items[k])
  {
    seq(|items|, k requires 0 <= k < |items| => PromptLine(items[k]))
  }

  /** `_format_danmaku_for_prompt(items, max_items)` */
  function FormatForPrompt(items: seq<Item>, maxItems: int): string
  {
    var lines := PromptLines(Prefix(items, maxItems));
    if lines == [] then "（无）" else Join(lines, "\n")
  }

  /** A prompt line starts with the text; it is longer exactly when the
      count is above one, and then the rest is ` (x`, the count in decimal
      and `)`. */
  lemma PromptLineShape(it: Item)
    ensures |PromptLine(it)| >= |it.text| && PromptLine(it)[..|it.text|] == it.text
    ensures |PromptLine(it)| > |it.text| <==> it.count > 1
    ensures it.count > 1 ==>
      var r := PromptLine(it);
      && |r| >= |it.text| + 5
      && r[|it.text|..|it.text| + 3] == " (x" && r[|r| - 1] == ')'
      && DecimalValue(r[|it.text| + 3..|r| - 1]) == it.count
  {
    if it.count > 1 {
      var d := Decimal(it.count);
      var r := PromptLine(it);
      assert r == it.text + " (x" + d + ")";
      assert r[|it.text| + 3..|r| - 1] == d;
      DecimalRoundTrip(it.count);
    }
  }

  /** No prompt line of a single-line text holds a line break. */
  lemma PromptLineNoBreak(it: Item)
    requires '\n' !in it.text
    ensures '\n' !in PromptLine(it)
  {
    if it.count > 1 {
      var d := Decimal(it.count);
      assert PromptLine(it) == it.text + " (x" + d + ")";
      assert forall k :: 0 <= k < |d| ==> d[k] != '\n';
    }
  }

  /** No items: the placeholder. Otherwise the prompt holds one line per
      item among the first `max_items`, in order. */
  lemma FormatForPromptLines(items: seq<Item>, maxItems: int)
    requires forall k :: 0 <= k < |items| ==> '\n' !in items[k].text
    ensures Prefix(items, maxItems) == [] ==> FormatForPrompt(items, maxItems) == "（无）"
    ensures Prefix(items, maxItems) != [] ==>
      var lines := Split(FormatForPrompt(items, maxItems), '\n');
      && |lines| == |Prefix(items, maxItems)|
      && forall k :: 0 <= k < |lines| ==> lines[k] == PromptLine(items[k])
  {
    var shown := Prefix(items, maxItems);
    if shown != [] {
      var lines := PromptLines(shown);
      forall k | 0 <= k < |lines| ensures '\n' !in lines[k] {
        PromptLineNoBreak(shown[k]);
      }
      SplitJoin(lines, '\n');
    }
  }

  // ------------------------------------------------------------ the prompts

  /** A top comment as fetched: its text and its like count. */
  datatype Comment = Comment(text: string, like: int)

  /** `f"[赞{like}] {text[:120]}"` */
  function CommentLine(c: Comment): string
  {
    "[赞" + IntToStr(c.like) + "] " + Prefix(c.text, 120)
  }

  /** The comment block of the one-shot prompt: the first ten comments. */
  function CommentBlock(comments: seq<Comment>): string
  {
    var shown := Prefix(comments, 10);
    Join(seq(|shown|, k requires 0 <= k < |shown| => CommentLine(shown[k])), "\n")
  }

  /** A request to the model, by what its prompt is built from. */
  datatype Request =
    | IntervalPrompt(startTs: string, endTs: string, items: seq<Item>, comments: seq<Comment>)
    | BatchPrompt(batch: seq<Item>)
    | MergePrompt(startTs: string, endTs: string, summaries: seq<string>)

  /** The text blocks a request's prompt embeds; the wording around them
      is not modelled. */
  function Blocks(req: Request): seq<string>
  {
    match req
    case IntervalPrompt(_, _, items, comments) => [FormatForPrompt(items, MaxItemsInPrompt), CommentBlock(comments)]
    case BatchPrompt(batch) => [FormatForPrompt(batch, BatchSize)]
    case MergePrompt(_, _, summaries) => [Join(NumberedLines(summaries), "\n")]
  }

  /** `_llm_one_line`: the stripped reply cut to 200 characters, `""` when
      the call fails. */
  function OneLine(llm: Request -> Option<string>, req: Request): (r: string)
    ensures |r| <= 200
    ensures llm(req).None? ==> r == ""
    ensures r != [] ==> !IsSpace(r[0])
  {
    match llm(req)
    case None => ""
    case Some(raw) => Prefix(Strip(raw), 200)
  }

  /** The requests made, in order, and the final reply. */
  datatype Outcome = Outcome(requests: seq<Request>, reply: string)

  // ------------------------------------------------------ _merge_summaries

  /** `f"{i+1}. {s}"` for each summary. */
  function NumberedLines(summaries: seq<string>): (r: seq<string>)
    ensures |r| == |summaries|
    ensures forall k :: 0 <= k < |r| ==> r[k] == IntToStr(k + 1) + ". " + summaries[k]
  {
    seq(|summaries|, k requires 0 <= k < |summaries| => IntToStr(k + 1) + ". " + summaries[k])
  }

  /** `_merge_summaries(summaries, start_ts, end_ts)`: no summary gives
      `""` and one summary is returned as it is, both without a request;
      two or more cost exactly one merge request. */
  function MergeSummaries(summaries: seq<string>, startTs: string, endTs: string, llm: Request -> Option<string>): (m: Outcome)
    ensures |summaries| <= 1 <==> m.requests == []
    ensures summaries == [] ==> m.reply == ""
    ensures |summaries| == 1 ==> m.reply == summaries[0]
    ensures |summaries| >= 2 ==> |m.requests| == 1 && m.requests[0].MergePrompt? && |m.reply| <= 200
  {
    if summaries == [] then Outcome([], "")
    else if |summaries| == 1 then Outcome([], summaries[0])
    else
      var req := MergePrompt(startTs, endTs, summaries);
      Outcome([req], OneLine(llm, req))
  }

  /** A numbered line reads back: the digits before the first full stop
      are the number, then `. ` and the summary. */
  lemma NumberedLineShape(n: nat, s: string)
    ensures var line := IntToStr(n) + ". " + s;
      var dot := IndexOf(line, '.');
      && dot + 2 <= |line|
      && DecimalValue(line[..dot]) == n
      && line[dot..dot + 2] == ". "
      && line[dot + 2..] == s
  {
    var d := Decimal(n);
    var line := d + ". " + s;
    assert forall i :: 0 <= i < |d| ==> line[i] == d[i] && d[i] != '.';
    assert line[|d|] == '.';
    assert IndexOf(line, '.') == |d|;
    assert line[..|d|] == d;
    assert line[|d| + 2..] == s;
    DecimalRoundTrip(n);
  }

  /** The merge prompt lists the summaries one per line, numbered from 1:
      line `k` is the number `k + 1`, a full stop, a blank and the `k`-th
      summary. */
  lemma NumberedBlockLines(summaries: seq<string>, k: nat)
    requires |summaries| >= 2 && k < |summaries|
    requires forall j :: 0 <= j < |summaries| ==> '\n' !in summaries[j]
    ensures var lines := Split(Join(NumberedLines(summaries), "\n"), '\n');
      && |lines| == |summaries|
      && var dot := IndexOf(lines[k], '.');
      && dot + 2 <= |lines[k]|
      && DecimalValue(lines[k][..dot]) == k + 1
      && lines[k][dot..dot + 2] == ". "
      && lines[k][dot + 2..] == summaries[k]
  {
    var lines := NumberedLines(summaries);
    forall j | 0 <= j < |lines| ensures '\n' !in lines[j] {
      NumberedLineNoBreak(j + 1, summaries[j]);
    }
    SplitJoin(lines, '\n');
    assert Split(Join(lines, "\n"), '\n') == lines;
    assert lines[k] == IntToStr(k + 1) + ". " + summaries[k];
    NumberedLineShape(k + 1, summaries[k]);
  }

  /** A numbered line of a summary without line breaks has none either. */
  lemma NumberedLineNoBreak(n: nat, s: string)
    requires '\n' !in s
    ensures '\n' !in IntToStr(n) + ". " + s
  {
    IntToStrOneLine(n);
  }

  // ----------------------------------------------- _analyze_interval_via_llm

  /** `items[i:i+15] for i in range(from, len(items), 15)` */
  function Batches(items: seq<Item>, from: nat): seq<seq<Item>>
    decreases |items| - from
  {
    if from >= |items| then []
    else [items[from..Min(from + BatchSize, |items|)]] + Batches(items, from + BatchSize)
  }

  function Concat(batches: seq<seq<Item>>): seq<Item>
  {
    if batches == [] then [] else batches[0] + Concat(batches[1..])
  }

  /** The batches hold every item once, in order. */
  lemma {:induction false} BatchesCover(items: seq<Item>, from: nat)
    requires from <= |items|
    ensures Concat(Batches(items, from)) == items[from..]
    decreases |items| - from
  {
    if from < |items| {
      var stop := Min(from + BatchSize, |items|);
      BatchesCover(items, stop);
      assert Batches(items, from) == [items[from..stop]] + Batches(items, stop) by {
        if stop == |items| {
          assert Batches(items, from + BatchSize) == [];
        }
      }
      assert items[from..] == items[from..stop] + items[stop..];
    }
  }

  /** There are `ceil(n / 15)` batches; batch `k` is
      `items[15k : 15k + 15]`, so none is empty or above fifteen items. */
  lemma {:induction false} BatchesShape(items: seq<Item>, from: nat)
    requires from <= |items|
    ensures |Batches(items, from)| == (|items| - from + BatchSize - 1) / BatchSize
    ensures forall k :: 0 <= k < |Batches(items, from)| ==>
      && from + k * BatchSize < |items|
      && Batches(items, from)[k] == items[from + k * BatchSize..Min(from + k * BatchSize + BatchSize, |items|)]
      && 1 <= |Batches(items, from)[k]| <= BatchSize
    decreases |items| - from
  {
    var b := Batches(items, from);
    if from < |items| {
      var stop := from + BatchSize;
      if stop < |items| {
        BatchesShape(items, stop);
        DivShift(|items| - from - 1, BatchSize);
        var rest := Batches(items, stop);
        assert b == [items[from..stop]] + rest;
        forall k | 0 <= k < |b|
          ensures from + k * BatchSize < |items|
          ensures b[k] == items[from + k * BatchSize..Min(from + k * BatchSize + BatchSize, |items|)]
          ensures 1 <= |b[k]| <= BatchSize
        {
          if k > 0 {
            assert b[k] == rest[k - 1];
            assert stop + (k - 1) * BatchSize == from + k * BatchSize;
          }
        }
      } else {
        assert Batches(items, stop) == [];
        DivUnique(|items| - from + BatchSize - 1, BatchSize, 1, |items| - from - 1);
      }
    }
  }

  /** One summary request per batch. */
  function BatchRequests(batches: seq<seq<Item>>): (r: seq<Request>)
    ensures |r| == |batches|
  {
    if batches == [] then []
    else [BatchPrompt(batches[0])] + BatchRequests(batches[1..])
  }

  /** Request `k` asks for a summary of batch `k`. */
  lemma {:induction false} BatchRequestsAt(batches: seq<seq<Item>>)
    ensures forall k :: 0 <= k < |batches| ==>
      BatchRequests(batches)[k] == BatchPrompt(batches[k])
  {
    if batches != [] {
      BatchRequestsAt(batches[1..]);
    }
  }

  /** The model as `_llm_one_line` sees it. */
  function Ask(llm: Request -> Option<string>): Request -> string
  {
    req => OneLine(llm, req)
  }

  /** The non-empty replies to some requests, in order. */
  function NonEmptyReplies(reqs: seq<Request>, ask: Request -> string): seq<string>
  {
    if reqs == [] then []
    else
      var s := ask(reqs[0]);
      (if s == "" then [] else [s]) + NonEmptyReplies(reqs[1..], ask)
  }

  /** At most one summary per request, none of them empty. */
  lemma {:induction false} NonEmptyRepliesShape(reqs: seq<Request>, ask: Request -> string)
    ensures |NonEmptyReplies(reqs, ask)| <= |reqs|
    ensures forall k :: 0 <= k < |NonEmptyReplies(reqs, ask)| ==> NonEmptyReplies(reqs, ask)[k] != ""
  {
    if reqs != [] {
      NonEmptyRepliesShape(reqs[1..], ask);
    }
  }

  /** Every summary is one reply, so the replies' length bound holds for each. */
  lemma {:induction false} NonEmptyRepliesBounded(reqs: seq<Request>, llm: Request -> Option<string>)
    ensures forall k :: 0 <= k < |NonEmptyReplies(reqs, Ask(llm))| ==> |NonEmptyReplies(reqs, Ask(llm))[k]| <= 200
  {
    if reqs != [] {
      NonEmptyRepliesBounded(reqs[1..], llm);
      assert |Ask(llm)(reqs[0])| <= 200;
    }
  }

  /** The items of a window after de-duplication and merging. */
  function Deduped(texts: seq<string>): seq<Item>
  {
    Dedupe.MergeSimilar(Dedupe.DedupeWindow(texts), Dedupe.MergeThreshold)
  }

  /** The batched branch: summarise each batch, then merge the non-empty
      summaries. */
  function Batched(items: seq<Item>, startTs: string, endTs: string, llm: Request -> Option<string>): Outcome
  {
    var reqs := BatchRequests(Batches(items, 0));
    var summaries := NonEmptyReplies(reqs, Ask(llm));
    if summaries == [] then Outcome(reqs, "")
    else
      var m := MergeSummaries(summaries, startTs, endTs, llm);
      Outcome(reqs + m.requests, m.reply)
  }

  /** `_analyze_interval_via_llm(start, end, texts, comments)`: the requests
      it makes and the summary it returns. */
  function Analyze(startSec: int, endSec: int, texts: seq<string>, comments: seq<Comment>,
                   llm: Request -> Option<string>): Outcome
  {
    var items := Deduped(texts);
    var startTs, endTs := DanmakuUtils.FmtTs(startSec), DanmakuUtils.FmtTs(endSec);
    if items == [] then Outcome([], "")
    else if |items| <= OneShotLimit then
      var req := IntervalPrompt(startTs, endTs, items, comments);
      Outcome([req], OneLine(llm, req))
    else Batched(items, startTs, endTs, llm)
  }

  /** Nothing is left after de-duplication exactly when every message
      normalises to nothing; then no request is made and the summary is
      empty. */
  lemma AnalyzeNoItems(startSec: int, endSec: int, texts: seq<string>, comments: seq<Comment>, llm: Request -> Option<string>)
    ensures Deduped(texts) == [] <==> forall t :: t in texts ==> Dedupe.Normalize(t) == ""
    ensures Deduped(texts) == [] ==> Analyze(startSec, endSec, texts, comments, llm) == Outcome([], "")
  {
    var kept := Dedupe.Kept(texts, Dedupe.Normalize);
    if forall t :: t in texts ==> Dedupe.Normalize(t) == "" {
      if kept != [] {
        Dedupe.KeptMember(texts, Dedupe.Normalize, kept[0]);
      }
      assert Dedupe.Tally([]) == [];
    } else {
      var t :| t in texts && Dedupe.Normalize(t) != "";
      Dedupe.KeptMember(texts, Dedupe.Normalize, Dedupe.Normalize(t));
      Dedupe.DedupeWindowCovers(texts);
      Dedupe.MergeSimilarCount(Dedupe.DedupeWindow(texts), Dedupe.MergeThreshold);
      assert |kept| > 0;
    }
  }

  /** The batched branch makes one summary request per batch of at most
      fifteen items, in order, then at most one merge request; no
      non-empty batch summary means an empty result, a single one is the
      result. */
  lemma BatchedShape(items: seq<Item>, startTs: string, endTs: string, llm: Request -> Option<string>)
    ensures var o := Batched(items, startTs, endTs, llm);
      var n := (|items| + BatchSize - 1) / BatchSize;
      var summaries := NonEmptyReplies(BatchRequests(Batches(items, 0)), Ask(llm));
      && n <= |o.requests| <= n + 1
      && o.requests[..n] == BatchRequests(Batches(items, 0))
      && (|o.requests| == n + 1 <==> |summaries| >= 2)
      && (summaries == [] ==> o.reply == "")
      && (|summaries| == 1 ==> o.reply == summaries[0])
  {
    BatchesShape(items, 0);
    var reqs := BatchRequests(Batches(items, 0));
    BatchRequestsAt(Batches(items, 0));
    var summaries := NonEmptyReplies(reqs, Ask(llm));
    var o := Batched(items, startTs, endTs, llm);
    if summaries != [] {
      var m := MergeSummaries(summaries, startTs, endTs, llm);
      assert o.requests == reqs + m.requests;
      assert o.requests[..|reqs|] == reqs;
    } else {
      assert o.requests[..|reqs|] == reqs;
    }
  }

  /** The prompt of batch request `k` lists the prompt lines of items
      `15k` up to `15k + 14`, one per line and in order. */
  lemma BatchBlockLines(items: seq<Item>, k: nat)
    requires k < |Batches(items, 0)|
    requires forall j :: 0 <= j < |items| ==> '\n' !in items[j].text
    ensures var lines := Split(Blocks(BatchRequests(Batches(items, 0))[k])[0], '\n');
      && |lines| == Min(BatchSize, |items| - k * BatchSize)
      && forall j :: 0 <= j < |lines| ==> lines[j] == PromptLine(items[k * BatchSize + j])
  {
    BatchesShape(items, 0);
    BatchRequestsAt(Batches(items, 0));
    var batch := Batches(items, 0)[k];
    assert forall j :: 0 <= j < |batch| ==> batch[j] == items[k * BatchSize + j];
    FormatForPromptLines(batch, BatchSize);
    assert Prefix(batch, BatchSize) == batch;
  }

  /** At most twenty-five items: exactly one request, the one-shot prompt
      with every item and the comments. */
  lemma AnalyzeOneShot(startSec: int, endSec: int, texts: seq<string>, comments: seq<Comment>, llm: Request -> Option<string>)
    requires 1 <= |Deduped(texts)| <= OneShotLimit
    ensures Analyze(startSec, endSec, texts, comments, llm).requests
         == [IntervalPrompt(DanmakuUtils.FmtTs(startSec), DanmakuUtils.FmtTs(endSec), Deduped(texts), comments)]
    ensures |Analyze(startSec, endSec, texts, comments, llm).reply| <= 200
  {
  }

  /** More than twenty-five items: the batched analysis of `BatchedShape`
      (batch requests first, one per fifteen items, then at most one merge
      request), over the de-duplicated items. The reply is still one model
      reply cut to 200 characters, as on the one-shot path. */
  lemma AnalyzeBatched(startSec: int, endSec: int, texts: seq<string>, comments: seq<Comment>, llm: Request -> Option<string>)
    requires |Deduped(texts)| > OneShotLimit
    ensures Analyze(startSec, endSec, texts, comments, llm)
         == Batched(Deduped(texts), DanmakuUtils.FmtTs(startSec), DanmakuUtils.FmtTs(endSec), llm)
    ensures |Analyze(startSec, endSec, texts, comments, llm).reply| <= 200
  {
    var items := Deduped(texts);
    var reqs := BatchRequests(Batches(items, 0));
    NonEmptyRepliesBounded(reqs, llm);
  }

  /** What the batch loop has done once it reaches item `i`: the requests
      and summaries so far, followed by those still to come, are all of
      them. */
  ghost predicate BatchesDone(items: seq<Item>, ask: Request -> string, i: nat,
                              summaries: seq<string>, requests: seq<Request>)
  {
    && requests + BatchRequests(Batches(items, i)) == BatchRequests(Batches(items, 0))
    && summaries + NonEmptyReplies(BatchRequests(Batches(items, i)), ask)
       == NonEmptyReplies(BatchRequests(Batches(items, 0)), ask)
  }

  /** One turn of the batch loop: request a summary of the batch at `i`,
      keep it when it is not empty. */
  lemma BatchStep(items: seq<Item>, ask: Request -> string, i: nat, summaries: seq<string>, requests: seq<Request>)
    requires i < |items| && BatchesDone(items, ask, i, summaries, requests)
    ensures var req := BatchPrompt(items[i..Min(i + BatchSize, |items|)]);
      BatchesDone(items, ask, i + BatchSize,
                  if ask(req) == "" then summaries else summaries + [ask(req)], requests + [req])
  {
    var req := BatchPrompt(items[i..Min(i + BatchSize, |items|)]);
    var rest := BatchRequests(Batches(items, i + BatchSize));
    assert BatchRequests(Batches(items, i)) == [req] + rest;
    assert requests + ([req] + rest) == (requests + [req]) + rest;
    var s := ask(req);
    if s != "" {
      assert summaries + ([s] + NonEmptyReplies(rest, ask)) == (summaries + [s]) + NonEmptyReplies(rest, ask);
    }
  }

  /** The batch loop: one summary request per batch, keeping the non-empty
      replies. */
  method SummarizeBatches(items: seq<Item>, ask: Request -> string)
    returns (summaries: seq<string>, requests: seq<Request>)
    ensures requests == BatchRequests(Batches(items, 0))
    ensures summaries == NonEmptyReplies(requests, ask)
  {
    summaries, requests := [], [];
    var i := 0;
    while i < |items|
      invariant BatchesDone(items, ask, i, summaries, requests)
      decreases |items| - i
    {
      var req := BatchPrompt(items[i..Min(i + BatchSize, |items|)]);
      var s := ask(req);
      BatchStep(items, ask, i, summaries, requests);
      if s != "" {
        summaries := summaries + [s];
      }
      requests := requests + [req];
      i := i + BatchSize;
    }
    assert Batches(items, i) == [];
  }

  /** `_analyze_interval_via_llm`, with the model calls as `llm`. */
  method AnalyzeInterval(startSec: int, endSec: int, texts: seq<string>, comments: seq<Comment>,
                         llm: Request -> Option<string>)
    returns (summary: string, requests: seq<Request>)
    ensures Outcome(requests, summary) == Analyze(startSec, endSec, texts, comments, llm)
  {
    var startTs := DanmakuUtils.FmtTs(startSec);
    var endTs := DanmakuUtils.FmtTs(endSec);
    var items := Dedupe.DedupeWindow(texts);
    items := Dedupe.MergeSimilarItems(items, Dedupe.MergeThreshold);
    if items == [] {
      return "", [];
    }
    if |items| <= OneShotLimit {
      var req := IntervalPrompt(startTs, endTs, items, comments);
      return OneLine(llm, req), [req];
    }
    var summaries;
    summaries, requests := SummarizeBatches(items, Ask(llm));
    if summaries == [] {
      return "", requests;
    }
    var merged := MergeSummaries(summaries, startTs, endTs, llm);
    summary, requests := merged.reply, requests + merged.requests;
  }

  // ----------------------------------------------- analyze_danmaku_density

  /** The parameters after clamping. */
  datatype Params = Params(window: int, step: int, topComments: int)

  /** The clamps at the top of `analyze_danmaku_density`. */
  function ClampParams(window: int, step: int, topComments: int): (r: Params)
    ensures r.window >= 15 && 5 <= r.step <= r.window && 1 <= r.topComments <= 100
    ensures window >= 15 ==> r.window == window
    ensures window < 15 ==> r.window == 15
    ensures 5 <= step <= r.window ==> r.step == step
    ensures r.step == Min(Max(5, step), r.window)
    ensures 1 <= topComments <= 100 ==> r.topComments == topComments
    ensures topComments < 1 ==> r.topComments == 1
    ensures topComments > 100 ==> r.topComments == 100
  {
    var w := if window < 15 then 15 else window;
    var s := if step < 5 then 5 else step;
    Params(w, if s > w then w else s, Max(1, Min(100, topComments)))
  }

  /** The video length, 1500 seconds when it is unknown or not positive. */
  function EffectiveDuration(duration: int): (r: int)
    ensures r >= 1
    ensures duration > 0 ==> r == duration
    ensures duration <= 0 ==> r == 1500
  {
    if duration <= 0 then 1500 else duration
  }

  /** How much of the video is analysed: at most `max_duration_sec` when
      that is given and positive. */
  function AnalyzeDuration(duration: int, maxDuration: Option<int>): (r: int)
    requires duration >= 1
    ensures 1 <= r <= duration
    ensures maxDuration.Some? && maxDuration.value > 0 ==> r == Min(duration, maxDuration.value)
    ensures !(maxDuration.Some? && maxDuration.value > 0) ==> r == duration
  {
    if maxDuration.Some? && maxDuration.value > 0 then Min(duration, maxDuration.value) else duration
  }

  /** `num_windows = max(1, (analyze_duration + step_sec - 1) // step_sec)` */
  function NumWindows(analyzed: int, step: int): int
    requires step > 0
  {
    Max(1, (analyzed + step - 1) / step)
  }

  /** The precomputed window count agrees with the loop: it runs once per
      start `0, step, ...` below the analysed length. */
  lemma NumWindowsAgrees(analyzed: int, step: int)
    requires analyzed >= 1 && step > 0
    ensures |Range(0, analyzed, step)| == NumWindows(analyzed, step)
  {
    RangeSpec(0, analyzed, step);
    MulAtLeast(analyzed + step - 1, step);
  }

  /** One message: its whole-second time and its text. */
  datatype Danmaku = Danmaku(time: int, text: string)

  /** `dm.text.strip().replace("\n", " ")[:100]` */
  function Clip(text: string): string
  {
    Prefix(ReplaceChar(Strip(text), '\n', ' '), 100)
  }

  /** A non-blank message clips to a non-empty single line of at most 100
      characters. */
  lemma ClipShape(text: string)
    ensures |Clip(text)| <= 100 && '\n' !in Clip(text)
    ensures Strip(text) != [] <==> Clip(text) != []
  {
    var c := Clip(text);
    assert forall k :: 0 <= k < |c| ==> c[k] == ReplaceChar(Strip(text), '\n', ' ')[k];
  }

  /** Whether a message is counted in the window `[start, end)`. */
  predicate Shown(d: Danmaku, start: int, end: int)
  {
    start <= d.time < end && Strip(d.text) != []
  }

  /** The texts of the messages in `[start, end)` with a non-blank text. */
  function InWindow(danmakus: seq<Danmaku>, start: int, end: int): seq<string>
  {
    if danmakus == [] then []
    else
      var d := danmakus[|danmakus| - 1];
      InWindow(danmakus[..|danmakus| - 1], start, end) + (if Shown(d, start, end) then [Clip(d.text)] else [])
  }

  /** A window holds the clipped text of each of its non-blank messages. */
  lemma {:induction false} InWindowHas(danmakus: seq<Danmaku>, start: int, end: int, d: Danmaku)
    requires d in danmakus && Shown(d, start, end)
    ensures Clip(d.text) in InWindow(danmakus, start, end)
  {
    var last, rest := danmakus[|danmakus| - 1], danmakus[..|danmakus| - 1];
    if d != last {
      assert danmakus == rest + [last];
      assert d in rest;
      InWindowHas(rest, start, end, d);
    }
  }

  /** A window holds nothing but clipped texts of its non-blank messages. */
  lemma {:induction false} InWindowFrom(danmakus: seq<Danmaku>, start: int, end: int, x: string)
    requires x in InWindow(danmakus, start, end)
    ensures exists d :: d in danmakus && Shown(d, start, end) && Clip(d.text) == x
  {
    var last, rest := danmakus[|danmakus| - 1], danmakus[..|danmakus| - 1];
    if x in InWindow(rest, start, end) {
      InWindowFrom(rest, start, end, x);
      var e :| e in rest && Shown(e, start, end) && Clip(e.text) == x;
      assert e in danmakus;
    } else {
      assert Shown(last, start, end) && Clip(last.text) == x;
      assert last in danmakus;
    }
  }

  /** A window counts at most one text per message. */
  lemma {:induction false} InWindowSize(danmakus: seq<Danmaku>, start: int, end: int)
    ensures |InWindow(danmakus, start, end)| <= |danmakus|
  {
    if danmakus != [] {
      InWindowSize(danmakus[..|danmakus| - 1], start, end);
    }
  }

  /** One analysed window. */
  datatype Interval = Interval(start: int, end: int, count: int, summary: string)

  function WindowEnd(start: int, window: int, duration: int): int
  {
    Min(start + window, duration)
  }

  /** The summariser of one window, given its bounds and its texts. */
  type Analyzer = (int, int, seq<string>) -> Outcome

  function AnalyzeWith(comments: seq<Comment>, llm: Request -> Option<string>): Analyzer
  {
    (s, e, t) => Analyze(s, e, t, comments, llm)
  }

  /** The window starting at `start`: its end, message count and summary. */
  function IntervalAt(danmakus: seq<Danmaku>, duration: int, window: int, start: int, analyze: Analyzer): Interval
  {
    var end := WindowEnd(start, window, duration);
    var texts := InWindow(danmakus, start, end);
    Interval(start, end, |texts|, analyze(start, end, texts).reply)
  }

  function Intervals(danmakus: seq<Danmaku>, duration: int, window: int, starts: seq<int>, analyze: Analyzer): (r: seq<Interval>)
    ensures |r| == |starts|
    ensures forall k :: 0 <= k < |r| ==> r[k] == IntervalAt(danmakus, duration, window, starts[k], analyze)
  {
    seq(|starts|, k requires 0 <= k < |starts| => IntervalAt(danmakus, duration, window, starts[k], analyze))
  }

  /** The requests of all windows, window after window. */
  function IntervalRequests(danmakus: seq<Danmaku>, duration: int, window: int, starts: seq<int>, analyze: Analyzer): seq<Request>
  {
    if starts == [] then []
    else
      var start := starts[|starts| - 1];
      var end := WindowEnd(start, window, duration);
      IntervalRequests(danmakus, duration, window, starts[..|starts| - 1], analyze)
        + analyze(start, end, InWindow(danmakus, start, end)).requests
  }

  /** `analyze` answers like `_analyze_interval_via_llm` on this window. */
  ghost predicate AnalyzesAt(analyze: Analyzer, comments: seq<Comment>, llm: Request -> Option<string>,
                             start: int, end: int, texts: seq<string>)
  {
    analyze(start, end, texts) == Analyze(start, end, texts, comments, llm)
  }

  /** `analyze` answers like `_analyze_interval_via_llm` on every window.
      The agreement is only read off where a window is analysed, so the
      analysis itself stays out of the loop's reasoning. */
  ghost predicate AnalyzesAll(analyze: Analyzer, comments: seq<Comment>, llm: Request -> Option<string>)
  {
    forall s, e, t {:trigger AnalyzesAt(analyze, comments, llm, s, e, t)} :: AnalyzesAt(analyze, comments, llm, s, e, t)
  }

  /** The analysis itself agrees with it on every window. */
  lemma AnalyzeWithAll(comments: seq<Comment>, llm: Request -> Option<string>)
    ensures AnalyzesAll(AnalyzeWith(comments, llm), comments, llm)
  {
    forall s, e, t ensures AnalyzesAt(AnalyzeWith(comments, llm), comments, llm, s, e, t) {
    }
  }

  /** `_analyze_interval_via_llm` for one window, seen through `analyze`. */
  method SummarizeWindow(start: int, end: int, texts: seq<string>, comments: seq<Comment>,
                         llm: Request -> Option<string>, ghost analyze: Analyzer)
    returns (summary: string, requests: seq<Request>)
    requires AnalyzesAt(analyze, comments, llm, start, end, texts)
    ensures Outcome(requests, summary) == analyze(start, end, texts)
  {
    summary, requests := AnalyzeInterval(start, end, texts, comments, llm);
  }

  /** What the window loop has done once it reaches `start`, the `k`-th of
      the window starts. */
  ghost predicate WindowsDone(danmakus: seq<Danmaku>, duration: int, window: int, analyze: Analyzer,
                              analyzed: int, step: int, starts: seq<int>, start: int, k: nat,
                              results: seq<Interval>, requests: seq<Request>)
    requires step > 0
  {
    && k <= |starts|
    && Range(start, analyzed, step) == starts[k..]
    && |results| == k
    && (forall j :: 0 <= j < k ==> results[j] == IntervalAt(danmakus, duration, window, starts[j], analyze))
    && requests == IntervalRequests(danmakus, duration, window, starts[..k], analyze)
  }

  /** One turn of the window loop analyses the window at `start`. */
  lemma WindowStep(danmakus: seq<Danmaku>, duration: int, window: int, analyze: Analyzer,
                   analyzed: int, step: int, starts: seq<int>, start: int, k: nat,
                   results: seq<Interval>, requests: seq<Request>)
    requires step > 0 && start < analyzed
    requires WindowsDone(danmakus, duration, window, analyze, analyzed, step, starts, start, k, results, requests)
    ensures var end := WindowEnd(start, window, duration);
      var o := analyze(start, end, InWindow(danmakus, start, end));
      WindowsDone(danmakus, duration, window, analyze, analyzed, step, starts, start + step, k + 1,
                  results + [IntervalAt(danmakus, duration, window, start, analyze)], requests + o.requests)
  {
    assert starts[k..] == [start] + Range(start + step, analyzed, step);
    assert starts[k + 1..] == starts[k..][1..];
    assert starts[..k + 1][..k] == starts[..k];
  }

  /** Before the first turn nothing has been analysed. */
  lemma WindowsStart(danmakus: seq<Danmaku>, duration: int, window: int, analyze: Analyzer,
                     analyzed: int, step: int)
    requires step > 0
    ensures WindowsDone(danmakus, duration, window, analyze, analyzed, step, Range(0, analyzed, step), 0, 0, [], [])
  {
    var starts := Range(0, analyzed, step);
    assert starts[0..] == starts && starts[..0] == [];
  }

  /** When the loop stops it has analysed every window. */
  lemma WindowsFinish(danmakus: seq<Danmaku>, duration: int, window: int, analyze: Analyzer,
                      analyzed: int, step: int, start: int, k: nat,
                      results: seq<Interval>, requests: seq<Request>)
    requires step > 0 && start >= analyzed
    requires WindowsDone(danmakus, duration, window, analyze, analyzed, step, Range(0, analyzed, step), start, k, results, requests)
    ensures results == Intervals(danmakus, duration, window, Range(0, analyzed, step), analyze)
    ensures requests == IntervalRequests(danmakus, duration, window, Range(0, analyzed, step), analyze)
  {
    var starts := Range(0, analyzed, step);
    assert starts[..k] == starts;
  }

  /** One turn of the window loop: analyse the window at `start` and
      record its interval and requests. */
  method WindowTurn(danmakus: seq<Danmaku>, comments: seq<Comment>, duration: int, analyzed: int,
                    window: int, step: int, llm: Request -> Option<string>, ghost analyze: Analyzer,
                    ghost starts: seq<int>, start: int, ghost k: nat, results: seq<Interval>, requests: seq<Request>)
    returns (results': seq<Interval>, requests': seq<Request>)
    requires step > 0 && start < analyzed
    requires AnalyzesAll(analyze, comments, llm)
    requires WindowsDone(danmakus, duration, window, analyze, analyzed, step, starts, start, k, results, requests)
    ensures WindowsDone(danmakus, duration, window, analyze, analyzed, step, starts, start + step, k + 1, results', requests')
  {
    var end := WindowEnd(start, window, duration);
    var texts := InWindow(danmakus, start, end);
    assert AnalyzesAt(analyze, comments, llm, start, end, texts);
    var summary, reqs := SummarizeWindow(start, end, texts, comments, llm, analyze);
    WindowStep(danmakus, duration, window, analyze, analyzed, step, starts, start, k, results, requests);
    results' := results + [Interval(start, end, |texts|, summary)];
    requests' := requests + reqs;
  }

  /** The window loop: `start = 0, step, ...` while below the analysed
      length. */
  method SlidingWindows(danmakus: seq<Danmaku>, comments: seq<Comment>, duration: int, analyzed: int,
                        window: int, step: int, llm: Request -> Option<string>, ghost analyze: Analyzer)
    returns (results: seq<Interval>, requests: seq<Request>)
    requires step > 0
    requires AnalyzesAll(analyze, comments, llm)
    ensures results == Intervals(danmakus, duration, window, Range(0, analyzed, step), analyze)
    ensures requests == IntervalRequests(danmakus, duration, window, Range(0, analyzed, step), analyze)
  {
    ghost var starts := Range(0, analyzed, step);
    results, requests := [], [];
    var start := 0;
    ghost var k := 0;
    WindowsStart(danmakus, duration, window, analyze, analyzed, step);
    while start < analyzed
      invariant WindowsDone(danmakus, duration, window, analyze, analyzed, step, starts, start, k, results, requests)
      decreases analyzed - start
    {
      results, requests := WindowTurn(danmakus, comments, duration, analyzed, window, step, llm, analyze,
                                      starts, start, k, results, requests);
      start := start + step;
      k := k + 1;
    }
    WindowsFinish(danmakus, duration, window, analyze, analyzed, step, start, k, results, requests);
  }

  /** Window `k` starts at `k * step`, ends `min(start + window, duration)`
      and counts the non-blank messages inside. */
  lemma IntervalsShape(danmakus: seq<Danmaku>, duration: int, analyzed: int, window: int, step: int, analyze: Analyzer)
    requires step > 0 && window > 0 && 1 <= analyzed <= duration
    ensures var r := Intervals(danmakus, duration, window, Range(0, analyzed, step), analyze);
      && |r| == NumWindows(analyzed, step)
      && forall k :: 0 <= k < |r| ==>
        && r[k].start == k * step
        && r[k].start < r[k].end <= duration
        && r[k].end - r[k].start <= window
        && r[k].end == Min(k * step + window, duration)
        && r[k].count == |InWindow(danmakus, r[k].start, r[k].end)|
  {
    RangeSpec(0, analyzed, step);
    NumWindowsAgrees(analyzed, step);
  }

  /** What `analyze_danmaku_density` computes before formatting its report. */
  datatype Report = Report(duration: int, analyzed: int, params: Params, intervals: seq<Interval>)

  /** `analyze_danmaku_density` on fetched messages and comments: `None`
      when there is no message. */
  method AnalyzeDensity(danmakus: seq<Danmaku>, comments: seq<Comment>, reportedDuration: int,
                        window: int, step: int, topComments: int, maxDuration: Option<int>,
                        llm: Request -> Option<string>)
    returns (report: Option<Report>, requests: seq<Request>)
    ensures report.None? <==> danmakus == []
    ensures report.Some? ==>
      var p := ClampParams(window, step, topComments);
      var duration := EffectiveDuration(reportedDuration);
      var analyzed := AnalyzeDuration(duration, maxDuration);
      var starts := Range(0, analyzed, p.step);
      && report.value == Report(duration, analyzed, p,
           Intervals(danmakus, duration, p.window, starts, AnalyzeWith(comments, llm)))
      && |report.value.intervals| == NumWindows(analyzed, p.step)
      && requests == IntervalRequests(danmakus, duration, p.window, starts, AnalyzeWith(comments, llm))
  {
    var p := ClampParams(window, step, topComments);
    var duration := EffectiveDuration(reportedDuration);
    var analyzed := AnalyzeDuration(duration, maxDuration);
    if danmakus == [] {
      return None, [];
    }
    var results;
    AnalyzeWithAll(comments, llm);
    results, requests := SlidingWindows(danmakus, comments, duration, analyzed, p.window, p.step, llm,
                                        AnalyzeWith(comments, llm));
    NumWindowsAgrees(analyzed, p.step);
    report := Some(Report(duration, analyzed, p, results));
  }
}

/** `search.py`: `_strip_html`, and what `search_bangumi_ssid` does once the
    two searches (anime, then films and series) have come back — merging
    their hits by season id, first occurrence first, and listing at most
    fifteen of them. */
module Search {
  import opened PyBase
  import opened PyStr

  // ------------------------------------------------------------ _strip_html

  /** Where the tag that starts at `s[0] == '<'` ends, for the pattern
      `<[^>]+>`: the index of the first `>` after the `<`, provided at least
      one character lies between the two; `0` when no tag starts here. */
  function TagEnd(s: string): (r: nat)
    requires s != [] && s[0] == '<'
    ensures r == 0 || 2 <= r < |s|
    ensures r != 0 ==> s[r] == '>' && forall k :: 1 <= k < r ==> s[k] != '>'
    ensures r == 0 ==> (|s| >= 2 && s[1] == '>') || forall k :: 1 <= k < |s| ==> s[k] != '>'
  {
    var j := IndexOf(s[1..], '>');
    if 1 <= j < |s| - 1 then j + 1 else 0
  }

  /** `re.sub(r"<[^>]+>", "", s)`: one left-to-right pass; a tag is dropped
      and the scan goes on after it, any other character is kept. */
  function StripTags(s: string): (r: string)
    ensures |r| <= |s|
    decreases |s|
  {
    if s == [] then ""
    else if s[0] == '<' && TagEnd(s) != 0 then StripTags(s[TagEnd(s) + 1..])
    else [s[0]] + StripTags(s[1..])
  }

  /** `_strip_html(s)`: `None` gives `""`; a string loses its tags. */
  function StripHtml(s: Option<string>): (r: string)
    ensures s.None? ==> r == ""
    ensures s.Some? ==> r == StripTags(s.value)
  {
    if s.None? || s.value == "" then "" else StripTags(s.value)
  }

  /** A tag with its contents goes, and the scan resumes right after it. */
  lemma TagRemoved(t: string, u: string)
    requires t != [] && '>' !in t
    ensures StripTags("<" + t + ">" + u) == StripTags(u)
  {
    var s := "<" + t + ">" + u;
    assert s[1..] == t + ">" + u;
    assert IndexOf(s[1..], '>') == |t| by {
      assert forall k :: 0 <= k < |t| ==> s[1..][k] == t[k];
      assert s[1..][|t|] == '>';
    }
    assert s[|t| + 2..] == u;
  }

  /** `<>` is not a tag: both characters stay. */
  lemma EmptyBracketsKept(u: string)
    ensures StripTags("<>" + u) == "<>" + StripTags(u)
  {
    var s, t := "<>" + u, ">" + u;
    assert s[0] == '<' && s[1..] == t;
    assert IndexOf(t, '>') == 0;
    assert TagEnd(s) == 0;
    assert StripTags(s) == [s[0]] + StripTags(t);
    assert t[0] == '>' && t[1..] == u;
    assert StripTags(t) == [t[0]] + StripTags(u);
    assert "<>" + StripTags(u) == "<" + (">" + StripTags(u));
  }

  /** A `<` with no `>` anywhere after it stays. */
  lemma UnclosedKept(u: string)
    requires '>' !in u
    ensures StripTags("<" + u) == "<" + StripTags(u)
  {
    var s := "<" + u;
    assert s[1..] == u;
  }

  /** Text without `<` comes back unchanged. */
  lemma {:induction false} PlainUnchanged(s: string)
    requires '<' !in s
    ensures StripTags(s) == s
  {
    if s != [] {
      assert '<' !in s[1..] by {
        assert forall k :: 0 <= k < |s| - 1 ==> s[1..][k] == s[k + 1];
      }
      PlainUnchanged(s[1..]);
    }
  }

  /** Text without `<` in front of the rest passes through untouched. */
  lemma {:induction false} PlainPrefix(p: string, u: string)
    requires '<' !in p
    ensures StripTags(p + u) == p + StripTags(u)
  {
    if p != [] {
      var s := p + u;
      assert s[0] == p[0];
      assert s[1..] == p[1..] + u;
      assert '<' !in p[1..] by {
        assert forall k :: 0 <= k < |p| - 1 ==> p[1..][k] == p[k + 1];
      }
      assert StripTags(s) == [p[0]] + StripTags(s[1..]);
      PlainPrefix(p[1..], u);
      assert p + StripTags(u) == [p[0]] + (p[1..] + StripTags(u));
    } else {
      assert p + u == u && p + StripTags(u) == StripTags(u);
    }
  }

  /** Stripping only removes characters, so it adds none that were absent. */
  lemma {:induction false} StripTagsExcludes(s: string, c: char)
    requires c !in s
    ensures c !in StripTags(s)
    decreases |s|
  {
    if s != [] {
      if s[0] == '<' && TagEnd(s) != 0 {
        StripTagsExcludes(s[TagEnd(s) + 1..], c);
      } else {
        StripTagsExcludes(s[1..], c);
      }
    }
  }

  /** `a` can be read off `b` left to right, skipping characters of `b`. */
  predicate IsSubsequence(a: string, b: string)
    decreases |b|
  {
    if a == [] then true
    else if b == [] then false
    else if a[0] == b[0] then IsSubsequence(a[1..], b[1..])
    else IsSubsequence(a, b[1..])
  }

  lemma {:induction false} SubsequenceTail(a: string, b: string)
    requires a != [] && IsSubsequence(a, b)
    ensures IsSubsequence(a[1..], b)
    decreases |b|, 0
  {
    if a[0] != b[0] {
      SubsequenceTail(a, b[1..]);
      SubsequenceCons(a[1..], b[1..], b[0]);
      assert [b[0]] + b[1..] == b;
    } else if a[1..] != [] {
      SubsequenceCons(a[1..], b[1..], b[0]);
      assert [b[0]] + b[1..] == b;
    }
  }

  lemma {:induction false} SubsequenceCons(a: string, b: string, c: char)
    requires IsSubsequence(a, b)
    ensures IsSubsequence(a, [c] + b)
    decreases |b|, 1
  {
    var cb := [c] + b;
    assert cb[1..] == b;
    if a != [] && a[0] == c {
      SubsequenceTail(a, b);
    }
  }

  lemma {:induction false} SubsequenceDrop(a: string, b: string, k: nat)
    requires k <= |b| && IsSubsequence(a, b[k..])
    ensures IsSubsequence(a, b)
  {
    if k > 0 {
      assert b[k - 1..] == [b[k - 1]] + b[k..];
      SubsequenceCons(a, b[k..], b[k - 1]);
      SubsequenceDrop(a, b, k - 1);
    }
  }

  /** The result is the input with some characters left out, in order. */
  lemma {:induction false} StripTagsSubsequence(s: string)
    ensures IsSubsequence(StripTags(s), s)
    decreases |s|
  {
    if s != [] {
      if s[0] == '<' && TagEnd(s) != 0 {
        StripTagsSubsequence(s[TagEnd(s) + 1..]);
        SubsequenceDrop(StripTags(s), s, TagEnd(s) + 1);
      } else {
        var r := StripTags(s);
        assert r[0] == s[0] && r[1..] == StripTags(s[1..]);
        StripTagsSubsequence(s[1..]);
      }
    }
  }

  /** No tag survives: a second pass changes nothing, so scanning the
      result again would find nothing to remove. */
  lemma {:induction false} StripTagsIdempotent(s: string)
    ensures StripTags(StripTags(s)) == StripTags(s)
    decreases |s|
  {
    if s == [] {
    } else if s[0] == '<' && TagEnd(s) != 0 {
      StripTagsIdempotent(s[TagEnd(s) + 1..]);
    } else if s[0] != '<' {
      var r := StripTags(s);
      assert r == [s[0]] + StripTags(s[1..]);
      assert r[1..] == StripTags(s[1..]);
      StripTagsIdempotent(s[1..]);
    } else if |s| >= 2 && s[1] == '>' {
      var u := s[2..];
      assert s == "<>" + u;
      EmptyBracketsKept(u);
      EmptyBracketsKept(StripTags(u));
      StripTagsIdempotent(u);
    } else {
      var u := s[1..];
      assert s == "<" + u;
      assert '>' !in u by {
        assert forall k :: 0 <= k < |u| ==> u[k] == s[k + 1];
      }
      UnclosedKept(u);
      StripTagsExcludes(u, '>');
      UnclosedKept(StripTags(u));
      StripTagsIdempotent(u);
    }
  }

  // ------------------------------------------------------------ search hits

  /** A text field of a hit: absent, JSON `null`, or a string. */
  datatype Text = Absent | Null | Str(s: string)

  /** One search hit, as far as the listing reads it. An integer field is
      `None` when the key is absent or `null`. */
  datatype Item = Item(
    seasonId: Option<int>,
    ssid: Option<int>,
    mediaId: Option<int>,
    title: Text,
    subtitle: Text,
    seasonTypeName: Text)

  /** `item.get(key, default)` on a text field. */
  function Get(t: Text, default: string): (r: Option<string>)
    ensures t.Absent? ==> r == Some(default)
    ensures t.Null? ==> r.None?
    ensures t.Str? ==> r == Some(t.s)
  {
    match t
    case Absent => Some(default)
    case Null => None
    case Str(s) => Some(s)
  }

  /** Python's truth value of an optional integer. */
  predicate Truthy(n: Option<int>)
  {
    n.Some? && n.value != 0
  }

  /** `item.get("season_id") or item.get("ssid")`, with `0` standing for
      both falsy outcomes (`None` and `0`). */
  function SeasonKey(it: Item): (r: int)
    ensures r != 0 <==> Truthy(it.seasonId) || Truthy(it.ssid)
    ensures Truthy(it.seasonId) ==> r == it.seasonId.value
    ensures !Truthy(it.seasonId) && Truthy(it.ssid) ==> r == it.ssid.value
  {
    if Truthy(it.seasonId) then it.seasonId.value
    else if Truthy(it.ssid) then it.ssid.value
    else 0
  }

  /** The season ids of `items`. */
  function Keys(items: seq<Item>): set<int>
  {
    set k | 0 <= k < |items| :: SeasonKey(items[k])
  }

  /** What the de-duplicating loops keep from `hits` (both result lists one
      after the other): a hit is kept when its season id is truthy and not
      yet among the kept ones. */
  function Collected(hits: seq<Item>): seq<Item>
  {
    if hits == [] then []
    else
      var kept := Collected(hits[..|hits| - 1]);
      var h := hits[|hits| - 1];
      if SeasonKey(h) != 0 && SeasonKey(h) !in Keys(kept) then kept + [h] else kept
  }

  /** `hits[i]` is the first hit with its (truthy) season id. */
  predicate FirstOfKey(hits: seq<Item>, i: nat)
    requires i < |hits|
  {
    SeasonKey(hits[i]) != 0 && forall j :: 0 <= j < i ==> SeasonKey(hits[j]) != SeasonKey(hits[i])
  }

  /** The first hit of every truthy season id, in the order of the hits. */
  function FirstHits(hits: seq<Item>): seq<Item>
  {
    if hits == [] then []
    else if FirstOfKey(hits, |hits| - 1) then FirstHits(hits[..|hits| - 1]) + [hits[|hits| - 1]]
    else FirstHits(hits[..|hits| - 1])
  }

  lemma KeysSnoc(items: seq<Item>, h: Item)
    ensures Keys(items + [h]) == Keys(items) + {SeasonKey(h)}
  {
    var all := items + [h];
    assert forall k :: 0 <= k < |items| ==> all[k] == items[k];
    assert all[|items|] == h;
  }

  /** Every truthy season id among the hits is kept, and nothing else. */
  lemma {:induction false} CollectedKeys(hits: seq<Item>)
    ensures Keys(Collected(hits)) == set i | 0 <= i < |hits| && SeasonKey(hits[i]) != 0 :: SeasonKey(hits[i])
  {
    if hits != [] {
      var init, h := hits[..|hits| - 1], hits[|hits| - 1];
      CollectedKeys(init);
      var kept := Collected(init);
      if SeasonKey(h) != 0 && SeasonKey(h) !in Keys(kept) {
        KeysSnoc(kept, h);
      }
      assert forall i :: 0 <= i < |init| ==> init[i] == hits[i];
    }
  }

  /** The kept hits are exactly the first hit of each truthy season id, in
      the order the two searches returned them. */
  lemma {:induction false} CollectedFirstHits(hits: seq<Item>)
    ensures Collected(hits) == FirstHits(hits)
  {
    if hits != [] {
      var init, h := hits[..|hits| - 1], hits[|hits| - 1];
      CollectedFirstHits(init);
      CollectedKeys(init);
      assert forall j :: 0 <= j < |init| ==> init[j] == hits[j];
      if SeasonKey(h) != 0 && SeasonKey(h) in Keys(Collected(init)) {
        var j :| 0 <= j < |init| && SeasonKey(init[j]) != 0 && SeasonKey(init[j]) == SeasonKey(h);
        assert !FirstOfKey(hits, |hits| - 1);
      }
    }
  }

  /** The kept hits have truthy, pairwise different season ids. */
  lemma {:induction false} CollectedDistinct(hits: seq<Item>)
    ensures forall k :: 0 <= k < |Collected(hits)| ==> SeasonKey(Collected(hits)[k]) != 0
    ensures forall k, l :: 0 <= k < l < |Collected(hits)| ==> SeasonKey(Collected(hits)[k]) != SeasonKey(Collected(hits)[l])
  {
    if hits != [] {
      var init := hits[..|hits| - 1];
      CollectedDistinct(init);
      var kept, h := Collected(init), hits[|hits| - 1];
      if SeasonKey(h) != 0 && SeasonKey(h) !in Keys(kept) {
        var r := kept + [h];
        assert forall k :: 0 <= k < |kept| ==> r[k] == kept[k] && SeasonKey(kept[k]) in Keys(kept);
        assert r[|kept|] == h;
      }
    }
  }

  lemma CollectedStep(before: seq<Item>, hits: seq<Item>, i: nat)
    requires i < |hits|
    ensures var kept := Collected(before + hits[..i]);
      Collected(before + hits[..i + 1])
      == if SeasonKey(hits[i]) != 0 && SeasonKey(hits[i]) !in Keys(kept) then kept + [hits[i]] else kept
  {
    var all := before + hits[..i + 1];
    assert all[..|all| - 1] == before + hits[..i];
    assert all[|all| - 1] == hits[i];
  }

  /** The inner loop of `search_bangumi_ssid` over one result list. */
  method Absorb(seen: set<int>, items: seq<Item>, hits: seq<Item>, ghost before: seq<Item>)
    returns (seen': set<int>, items': seq<Item>)
    requires items == Collected(before) && seen == Keys(items)
    ensures items' == Collected(before + hits) && seen' == Keys(items')
  {
    seen', items' := seen, items;
    assert before + hits[..0] == before;
    for i := 0 to |hits|
      invariant items' == Collected(before + hits[..i]) && seen' == Keys(items')
    {
      CollectedStep(before, hits, i);
      var sid := SeasonKey(hits[i]);
      if sid != 0 && sid !in seen' {
        KeysSnoc(items', hits[i]);
        seen' := seen' + {sid};
        items' := items' + [hits[i]];
      }
    }
    assert hits[..|hits|] == hits;
  }

  /** Both searches' hits, anime first, de-duplicated by season id. */
  method CollectSeasons(bangumi: seq<Item>, ft: seq<Item>) returns (items: seq<Item>)
    ensures items == Collected(bangumi + ft)
  {
    var seen: set<int> := {};
    items := [];
    assert [] + bangumi == bangumi;
    seen, items := Absorb(seen, items, bangumi, []);
    seen, items := Absorb(seen, items, ft, bangumi);
  }

  // ------------------------------------------------------------ the listing

  /** At most this many hits are listed. */
  const MaxListed := 15

  /** The bracketed note after the title. */
  function Note(it: Item): (r: string)
  {
    var name := Get(it.seasonTypeName, "");
    var subtitle := StripHtml(Get(it.subtitle, ""));
    if name.Some? && name.value != "" then "（" + name.value + "）"
    else if subtitle != "" then "（" + subtitle + "）"
    else ""
  }

  /** The season type wins when it is non-empty, the cleaned subtitle comes
      next, and otherwise there is no note. */
  lemma NoteChoice(it: Item)
    ensures it.seasonTypeName.Str? && it.seasonTypeName.s != ""
      ==> Note(it) == "（" + it.seasonTypeName.s + "）"
    ensures !(it.seasonTypeName.Str? && it.seasonTypeName.s != "") && it.subtitle.Str? && StripTags(it.subtitle.s) != ""
      ==> Note(it) == "（" + StripTags(it.subtitle.s) + "）"
    ensures !(it.seasonTypeName.Str? && it.seasonTypeName.s != "") && !(it.subtitle.Str? && StripTags(it.subtitle.s) != "")
      ==> Note(it) == ""
  {
  }

  /** The cleaned title, `未知` when the hit has none. */
  function Title(it: Item): string
  {
    StripHtml(Get(it.title, "未知"))
  }

  /** `, media_id: …` when the media id is truthy, nothing otherwise. */
  function MediaPart(it: Item): string
  {
    if Truthy(it.mediaId) then ", media_id: " + IntToStr(it.mediaId.value) else ""
  }

  /** What follows the number on a line: title, note, season id and media
      id, for a hit whose season id is truthy. */
  function Entry(it: Item): string
  {
    Title(it) + Note(it) + " — ssid: " + IntToStr(SeasonKey(it)) + MediaPart(it)
  }

  /** Line `i` of the listing. */
  function SeasonLine(i: int, it: Item): string
  {
    IntToStr(i) + ". " + Entry(it)
  }

  lemma StartsWith(a: string, b: string)
    ensures |a| <= |a + b| && (a + b)[..|a|] == a
  {
  }

  lemma EndsWith(a: string, b: string)
    ensures |b| <= |a + b| && (a + b)[|a + b| - |b|..] == b
  {
  }

  /** A line opens with its number. */
  lemma SeasonLineNumbered(i: int, it: Item)
    ensures var lead := IntToStr(i) + ". ";
      |lead| <= |SeasonLine(i, it)| && SeasonLine(i, it)[..|lead|] == lead
  {
    StartsWith(IntToStr(i) + ". ", Entry(it));
  }

  /** With a truthy media id, the entry ends with it. */
  lemma EntryMediaId(it: Item)
    requires Truthy(it.mediaId)
    ensures var tail := ", media_id: " + IntToStr(it.mediaId.value);
      |tail| <= |Entry(it)| && Entry(it)[|Entry(it)| - |tail|..] == tail
  {
    var pre := Title(it) + Note(it) + " — ssid: " + IntToStr(SeasonKey(it));
    EndsWith(pre, MediaPart(it));
  }

  /** Without a truthy media id, the entry ends with the season id. */
  lemma EntryNoMediaId(it: Item)
    requires !Truthy(it.mediaId)
    ensures var tail := " — ssid: " + IntToStr(SeasonKey(it));
      |tail| <= |Entry(it)| && Entry(it)[|Entry(it)| - |tail|..] == tail
  {
    var pre := Title(it) + Note(it);
    var ssid := " — ssid: " + IntToStr(SeasonKey(it));
    assert Entry(it) == pre + ssid + MediaPart(it);
    assert MediaPart(it) == "";
    EndsWith(pre, ssid);
  }

  /** The formatting loop: the first fifteen hits, numbered from 1. */
  method SeasonLines(items: seq<Item>) returns (lines: seq<string>)
    ensures |lines| == Min(MaxListed, |items|)
    ensures forall k :: 0 <= k < |lines| ==> lines[k] == SeasonLine(k + 1, items[k])
    ensures lines == Enumerate(Prefix(items, MaxListed), SeasonLine)
  {
    var shown := Prefix(items, MaxListed);
    lines := [];
    for i := 0 to |shown|
      invariant lines == Enumerate(shown[..i], SeasonLine)
    {
      EnumerateSnoc(shown, SeasonLine, i);
      lines := lines + [SeasonLine(i + 1, shown[i])];
    }
    assert shown[..|shown|] == shown;
    EnumerateAt(shown, SeasonLine);
  }

  /** The first line of a non-empty answer. */
  const ReportHead := "搜索结果（番剧+影视/剧场版）:"

  /** The reply for the kept hits `items`. */
  function Report(keyword: string, items: seq<Item>): string
  {
    if items == [] then "未找到与「" + keyword + "」相关的结果。"
    else ReportHead + "\n" + Join(Enumerate(Prefix(items, MaxListed), SeasonLine), "\n")
  }

  /** `search_bangumi_ssid` after both searches returned `bangumi` and `ft`. */
  method SearchBangumiSsid(keyword: string, bangumi: seq<Item>, ft: seq<Item>) returns (out: string)
    ensures out == Report(keyword, Collected(bangumi + ft))
  {
    var items := CollectSeasons(bangumi, ft);
    if items == [] {
      out := "未找到与「" + keyword + "」相关的结果。";
    } else {
      var lines := SeasonLines(items);
      out := ReportHead + "\n" + Join(lines, "\n");
    }
  }

  /** Hits without a truthy season id are all dropped. */
  lemma {:induction false} NothingCollected(hits: seq<Item>)
    requires forall i :: 0 <= i < |hits| ==> SeasonKey(hits[i]) == 0
    ensures Collected(hits) == []
  {
    if hits != [] {
      NothingCollected(hits[..|hits| - 1]);
    }
  }

  /** Without a single truthy season id the answer says nothing was found. */
  lemma ReportNotFound(keyword: string, hits: seq<Item>)
    requires forall i :: 0 <= i < |hits| ==> SeasonKey(hits[i]) == 0
    ensures Report(keyword, Collected(hits)) == "未找到与「" + keyword + "」相关的结果。"
  {
    NothingCollected(hits);
  }

  /** No line break in any text field of a hit. */
  predicate OneLine(it: Item)
  {
    (it.title.Str? ==> '\n' !in it.title.s)
    && (it.subtitle.Str? ==> '\n' !in it.subtitle.s)
    && (it.seasonTypeName.Str? ==> '\n' !in it.seasonTypeName.s)
  }

  lemma TitleOneLine(it: Item)
    requires OneLine(it)
    ensures '\n' !in Title(it) && '\n' !in Note(it)
  {
    var title := Get(it.title, "未知");
    if title.Some? {
      StripTagsExcludes(title.value, '\n');
    }
    var subtitle := Get(it.subtitle, "");
    if subtitle.Some? {
      StripTagsExcludes(subtitle.value, '\n');
    }
  }

  lemma IdsOneLine(it: Item)
    ensures '\n' !in " — ssid: " + IntToStr(SeasonKey(it)) && '\n' !in MediaPart(it)
  {
    IntToStrOneLine(SeasonKey(it));
    ConcatExcludes('\n', " — ssid: ", IntToStr(SeasonKey(it)));
    if Truthy(it.mediaId) {
      IntToStrOneLine(it.mediaId.value);
      ConcatExcludes('\n', ", media_id: ", IntToStr(it.mediaId.value));
    }
  }

  lemma SeasonLineOneLine(i: int, it: Item)
    requires OneLine(it)
    ensures '\n' !in SeasonLine(i, it)
  {
    TitleOneLine(it);
    IdsOneLine(it);
    var ssid := " — ssid: " + IntToStr(SeasonKey(it));
    ConcatExcludes('\n', Title(it), Note(it));
    ConcatExcludes('\n', Title(it) + Note(it), ssid);
    ConcatExcludes('\n', Title(it) + Note(it) + ssid, MediaPart(it));
    IntToStrOneLine(i);
    ConcatExcludes('\n', IntToStr(i), ". ");
    ConcatExcludes('\n', IntToStr(i) + ". ", Entry(it));
  }

  /** Every kept hit is a single-line hit when all hits are. */
  lemma CollectedOneLine(hits: seq<Item>)
    requires forall i :: 0 <= i < |hits| ==> OneLine(hits[i])
    ensures forall k :: 0 <= k < |Collected(hits)| ==> OneLine(Collected(hits)[k])
  {
    CollectedFirstHits(hits);
    FirstHitsFrom(hits);
  }

  /** Single-line hits give single-line listing lines. */
  lemma ListingOneLine(items: seq<Item>)
    requires forall k :: 0 <= k < |items| ==> OneLine(items[k])
    ensures forall k :: 0 <= k < |Enumerate(Prefix(items, MaxListed), SeasonLine)| ==>
      '\n' !in Enumerate(Prefix(items, MaxListed), SeasonLine)[k]
  {
    var shown := Prefix(items, MaxListed);
    EnumerateAt(shown, SeasonLine);
    forall k | 0 <= k < |shown| ensures '\n' !in SeasonLine(k + 1, shown[k]) {
      SeasonLineOneLine(k + 1, shown[k]);
    }
  }

  /** With at least one truthy season id, the answer is the head line and
      then one numbered line for each of the first fifteen kept hits. */
  lemma ReportShape(keyword: string, hits: seq<Item>)
    requires Collected(hits) != []
    requires forall i :: 0 <= i < |hits| ==> OneLine(hits[i])
    ensures var items := Collected(hits);
      var lines := Split(Report(keyword, items), '\n');
      |lines| == 1 + Min(MaxListed, |items|) && lines[0] == ReportHead
      && forall k :: 1 <= k < |lines| ==> lines[k] == SeasonLine(k, items[k - 1])
  {
    var items := Collected(hits);
    CollectedOneLine(hits);
    ListingOneLine(items);
    var shown := Prefix(items, MaxListed);
    var lines := Enumerate(shown, SeasonLine);
    EnumerateAt(shown, SeasonLine);
    JoinHead(ReportHead, lines, "\n");
    ReportHeadOneLine();
    HeadThenLines(ReportHead, lines);
  }

  lemma ReportHeadOneLine()
    ensures '\n' !in ReportHead
  {
    assert forall k :: 0 <= k < |ReportHead| ==> ReportHead[k] != '\n';
  }

  lemma JoinHead(head: string, lines: seq<string>, sep: string)
    requires lines != []
    ensures Join([head] + lines, sep) == head + sep + Join(lines, sep)
  {
    assert ([head] + lines)[1..] == lines;
  }

  /** Every kept hit is one of the hits. */
  lemma {:induction false} FirstHitsFrom(hits: seq<Item>)
    ensures forall k :: 0 <= k < |FirstHits(hits)| ==> FirstHits(hits)[k] in hits
  {
    if hits != [] {
      var init := hits[..|hits| - 1];
      FirstHitsFrom(init);
      assert forall x :: x in init ==> x in hits;
    }
  }
}

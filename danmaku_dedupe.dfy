/** The text pipeline that prepares window messages for the summariser
    (`danmaku/tools.py`): normalisation, exact de-duplication with counts,
    and greedy merging of near-duplicates by trigram similarity. */
module Dedupe {
  import opened PyBase
  import opened PyStr
  import Content
  import Sorting

  // ----------------------------------------------------- _normalize_danmaku

  /** `re.sub(r"\s+", " ", s)`: every run of white space becomes one blank. */
  function CollapseSpace(s: string): (r: string)
    decreases |s|
  {
    if s == [] then []
    else if IsSpace(s[0]) then
      var rest := LStrip(s);
      assert rest != [] ==> rest != s;
      [' '] + CollapseSpace(rest)
    else [s[0]] + CollapseSpace(s[1..])
  }

  /** `s` without its leading copies of `c`. */
  function DropLeading(s: string, c: char): (r: string)
    ensures |r| <= |s| && r == s[|s| - |r|..]
    ensures r != [] ==> r[0] != c
    ensures s != [] && s[0] == c ==> |r| < |s|
  {
    if s != [] && s[0] == c then DropLeading(s[1..], c) else s
  }

  /** `re.sub(r"(.)\1+", r"\1\1", s)`: each run of two or more equal
      characters other than a line break becomes exactly two. */
  function CapRuns(s: string): (r: string)
    decreases |s|
  {
    if s == [] then []
    else if |s| >= 2 && s[0] != '\n' && s[1] == s[0] then [s[0]] + ([s[0]] + CapRuns(DropLeading(s, s[0])))
    else [s[0]] + CapRuns(s[1..])
  }

  /** `_normalize_danmaku(text)` */
  function Normalize(text: string): string
  {
    Prefix(CapRuns(Cleaned(text)), 100)
  }

  /** Every white-space character (by `sp`) is a plain blank. */
  ghost predicate BlanksOnly(s: string, sp: char -> bool)
  {
    forall k :: 0 <= k < |s| && sp(s[k]) ==> s[k] == ' '
  }

  /** No two white-space characters (by `sp`) are adjacent. */
  ghost predicate NoDoubleSpace(s: string, sp: char -> bool)
  {
    forall k :: 0 <= k < |s| - 1 ==> !(sp(s[k]) && sp(s[k + 1]))
  }

  /** No character occurs three times in a row. */
  ghost predicate NoTriple(s: string)
  {
    forall k :: 0 <= k < |s| - 2 ==> !(s[k] == s[k + 1] && s[k + 1] == s[k + 2])
  }

  /** Collapsing leaves single blanks and keeps a non-blank first character. */
  lemma {:induction false} CollapseSpaceShape(s: string)
    ensures var r := CollapseSpace(s);
      && BlanksOnly(r, IsSpace) && NoDoubleSpace(r, IsSpace)
      && (s != [] <==> r != [])
      && (s != [] && !IsSpace(s[0]) ==> r[0] == s[0])
    decreases |s|
  {
    var r := CollapseSpace(s);
    if s != [] {
      if IsSpace(s[0]) {
        var rest := LStrip(s);
        assert rest != [] ==> rest != s;
        CollapseSpaceShape(rest);
        var t := CollapseSpace(rest);
        ConsBlanks(' ', t, IsSpace);
        ConsNoDouble(' ', t, IsSpace);
        assert r == [' '] + t;
      } else {
        CollapseSpaceShape(s[1..]);
        var t := CollapseSpace(s[1..]);
        ConsBlanks(s[0], t, IsSpace);
        ConsNoDouble(s[0], t, IsSpace);
        assert r == [s[0]] + t;
      }
    }
  }

  /** `strip` keeps an infix of its argument. */
  lemma StripInfix(s: string) returns (i: nat)
    ensures i + |Strip(s)| <= |s| && Strip(s) == s[i..i + |Strip(s)|]
  {
    var l := LStrip(s);
    var r := RStrip(l);
    i := |s| - |l|;
    assert r == l[..|r|] && l == s[i..];
  }

  /** The three properties carry over to infixes. */
  lemma InfixShape(s: string, t: string, i: int, sp: char -> bool)
    requires 0 <= i && i + |t| <= |s| && t == s[i..i + |t|]
    ensures BlanksOnly(s, sp) ==> BlanksOnly(t, sp)
    ensures NoDoubleSpace(s, sp) ==> NoDoubleSpace(t, sp)
    ensures NoTriple(s) ==> NoTriple(t)
  {
    assert forall k :: 0 <= k < |t| ==> t[k] == s[i + k];
  }

  lemma ConsBlanks(x: char, t: string, sp: char -> bool)
    requires BlanksOnly(t, sp) && (sp(x) ==> x == ' ')
    ensures BlanksOnly([x] + t, sp)
  {
    var r := [x] + t;
    assert forall k :: 1 <= k < |r| ==> r[k] == t[k - 1];
  }

  lemma ConsNoDouble(x: char, t: string, sp: char -> bool)
    requires NoDoubleSpace(t, sp) && (t != [] ==> !(sp(x) && sp(t[0])))
    ensures NoDoubleSpace([x] + t, sp)
  {
    var r := [x] + t;
    assert forall k :: 1 <= k < |r| ==> r[k] == t[k - 1];
  }

  lemma ConsNoTriple(x: char, t: string)
    requires NoTriple(t) && (|t| >= 2 ==> !(x == t[0] && t[0] == t[1]))
    ensures NoTriple([x] + t)
  {
    var r := [x] + t;
    assert forall k :: 1 <= k < |r| ==> r[k] == t[k - 1];
  }

  /** Capping runs keeps the first character. */
  lemma CapRunsFirst(s: string)
    ensures (s != [] <==> CapRuns(s) != []) && (s != [] ==> CapRuns(s)[0] == s[0])
  {
  }

  /** Capping runs keeps every white-space character (by `sp`) a blank. */
  lemma {:induction false} CapRunsBlanks(s: string, sp: char -> bool)
    requires BlanksOnly(s, sp)
    ensures BlanksOnly(CapRuns(s), sp)
    decreases |s|
  {
    if s != [] {
      if |s| >= 2 && s[0] != '\n' && s[1] == s[0] {
        var c := s[0];
        var rest := DropLeading(s, c);
        InfixShape(s, rest, |s| - |rest|, sp);
        CapRunsBlanks(rest, sp);
        var t := CapRuns(rest);
        ConsBlanks(c, t, sp);
        ConsBlanks(c, [c] + t, sp);
      } else {
        InfixShape(s, s[1..], 1, sp);
        CapRunsBlanks(s[1..], sp);
        ConsBlanks(s[0], CapRuns(s[1..]), sp);
      }
    }
  }

  /** Capping runs never puts two white-space characters side by side. */
  lemma {:induction false} CapRunsNoDouble(s: string, sp: char -> bool)
    requires NoDoubleSpace(s, sp)
    ensures NoDoubleSpace(CapRuns(s), sp)
    decreases |s|
  {
    if s != [] {
      if |s| >= 2 && s[0] != '\n' && s[1] == s[0] {
        var c := s[0];
        var rest := DropLeading(s, c);
        InfixShape(s, rest, |s| - |rest|, sp);
        CapRunsNoDouble(rest, sp);
        CapRunsFirst(rest);
        var t := CapRuns(rest);
        assert !sp(c);
        ConsNoDouble(c, t, sp);
        ConsNoDouble(c, [c] + t, sp);
      } else {
        InfixShape(s, s[1..], 1, sp);
        CapRunsNoDouble(s[1..], sp);
        CapRunsFirst(s[1..]);
        ConsNoDouble(s[0], CapRuns(s[1..]), sp);
      }
    }
  }

  /** Capping runs leaves no character three times in a row, once no two
      white-space characters are adjacent and the line break counts as
      white space (line breaks are the one character whose runs it keeps). */
  lemma {:induction false} CapRunsNoTriple(s: string, sp: char -> bool)
    requires sp('\n') && NoDoubleSpace(s, sp)
    ensures NoTriple(CapRuns(s))
    decreases |s|
  {
    if s != [] {
      if |s| >= 2 && s[0] != '\n' && s[1] == s[0] {
        var rest := DropLeading(s, s[0]);
        InfixShape(s, rest, |s| - |rest|, sp);
        CapRunsNoTriple(rest, sp);
        PairThenCapped(s[0], rest);
      } else {
        InfixShape(s, s[1..], 1, sp);
        CapRunsNoTriple(s[1..], sp);
        SingleThenCapped(s, sp);
      }
    }
  }

  /** A capped run of two in front of a capped rest that starts with another character. */
  lemma PairThenCapped(c: char, rest: string)
    requires NoTriple(CapRuns(rest)) && (rest != [] ==> rest[0] != c)
    ensures NoTriple([c] + ([c] + CapRuns(rest)))
  {
    CapRunsFirst(rest);
    ConsNoTriple(c, CapRuns(rest));
    ConsNoTriple(c, [c] + CapRuns(rest));
  }

  /** One character that starts no run of its own, in front of the capped rest. */
  lemma SingleThenCapped(s: string, sp: char -> bool)
    requires sp('\n') && NoDoubleSpace(s, sp) && s != []
    requires !(|s| >= 2 && s[0] != '\n' && s[1] == s[0])
    requires NoTriple(CapRuns(s[1..]))
    ensures NoTriple([s[0]] + CapRuns(s[1..]))
  {
    CapRunsFirst(s[1..]);
    if |s| >= 3 {
      CapRunsFirst(s[2..]);
    }
    ConsNoTriple(s[0], CapRuns(s[1..]));
  }

  /** The text before run capping: stripped, with single blanks only. */
  function Cleaned(text: string): string
  {
    Strip(Collapsed(text))
  }

  /** The text `Cleaned` strips, before the final strip. */
  function Collapsed(text: string): string
  {
    CollapseSpace(ReplaceChar(ReplaceChar(Strip(text), '\n', ' '), '\t', ' '))
  }

  /** Stripping keeps single blanks as the only white space. */
  lemma StripKeepsBlanks(c: string)
    requires BlanksOnly(c, IsSpace) && NoDoubleSpace(c, IsSpace)
    ensures BlanksOnly(Strip(c), IsSpace) && NoDoubleSpace(Strip(c), IsSpace)
  {
    var t := Strip(c);
    var i := StripInfix(c);
    assert t == c[i..i + |t|];
    InfixShape(c, t, i, IsSpace);
  }

  /** The cleaned text has single blanks as its only white space and does
      not start with white space. */
  lemma CleanedShape(text: string)
    ensures BlanksOnly(Cleaned(text), IsSpace)
    ensures NoDoubleSpace(Cleaned(text), IsSpace)
    ensures Cleaned(text) != [] ==> !IsSpace(Cleaned(text)[0])
  {
    var x := ReplaceChar(ReplaceChar(Strip(text), '\n', ' '), '\t', ' ');
    CollapseSpaceShape(x);
    StripKeepsBlanks(CollapseSpace(x));
  }

  /** What `_normalize_danmaku` guarantees: at most 100 characters, no line
      break or tab, no leading white space, no two adjacent white-space
      characters, no character three times in a row. */
  lemma NormalizeShape(text: string)
    ensures var r := Normalize(text);
      && |r| <= 100
      && (forall k :: 0 <= k < |r| ==> r[k] != '\n' && r[k] != '\t')
      && (r != [] ==> !IsSpace(r[0]))
      && NoDoubleSpace(r, IsSpace)
      && NoTriple(r)
  {
    var st := Cleaned(text);
    CleanedShape(text);
    assert IsSpace('\n') && IsSpace('\t');
    CapRunsBlanks(st, IsSpace);
    CapRunsNoDouble(st, IsSpace);
    CapRunsNoTriple(st, IsSpace);
    CapRunsFirst(st);
    var cr := CapRuns(st);
    var r := Normalize(text);
    assert r == Prefix(cr, 100);
    InfixShape(cr, r, 0, IsSpace);
    assert r == cr[0..|r|];
  }

  // ------------------------------------------------------ _trigrams, _jaccard

  /** `_trigrams(s)` */
  function Trigrams(s: string): set<string>
  {
    Content.NGrams(s, 3)
  }

  /** No trigram in a string shorter than three; otherwise exactly its
      three-character substrings. */
  lemma TrigramsShape(s: string)
    ensures |s| < 3 ==> Trigrams(s) == {}
    ensures forall g :: g in Trigrams(s) <==> |s| >= 3 && exists i :: 0 <= i <= |s| - 3 && g == Content.Gram(s, i, 3)
  {
    forall g ensures g in Trigrams(s) <==> |s| >= 3 && exists i :: 0 <= i <= |s| - 3 && g == Content.Gram(s, i, 3) {
      Content.NGramsMember(s, 3, g);
    }
  }

  /** `_jaccard(a, b)` */
  function Jaccard(a: set<string>, b: set<string>): real
  {
    if a == {} && b == {} then 1.0
    else if a == {} || b == {} then 0.0
    else |a * b| as real / |a + b| as real
  }

  /** It agrees with the content splitter's `jaccard` on all sets, and so
      lies in [0, 1]. */
  lemma JaccardAgrees(a: set<string>, b: set<string>)
    ensures Jaccard(a, b) == Content.Jaccard(a, b)
    ensures 0.0 <= Jaccard(a, b) <= 1.0
  {
    if a == {} && b != {} {
      assert a * b == {};
    } else if b == {} && a != {} {
      assert a * b == {};
    } else if a != {} {
      var x :| x in a;
      assert x in a + b;
    }
  }

  // --------------------------------------------------------- _dedupe_window

  /** A message text with how often it was sent: one `(text, count)` pair. */
  datatype Item = Item(text: string, count: int)

  function TextOf(it: Item): string { it.text }
  function CountOf(it: Item): int { it.count }
  /** The sort key of `sorted(..., key=lambda x: -x[1])`, as a descending key. */
  function CountKey(it: Item): real { it.count as real }

  /** The texts of some items. */
  function Texts(items: seq<Item>): set<string>
  {
    set it | it in items :: it.text
  }

  /** `[norm(t) for t in texts if norm(t)]`; `_dedupe_window` uses it
      with `norm` = `_normalize_danmaku`. */
  function Kept(texts: seq<string>, norm: string -> string): seq<string>
    decreases |texts|
  {
    if texts == [] then []
    else
      var n := norm(texts[|texts| - 1]);
      Kept(texts[..|texts| - 1], norm) + (if n == [] then [] else [n])
  }

  /** A text is kept exactly when it is the non-empty normal form of an input. */
  lemma {:induction false} KeptMember(texts: seq<string>, norm: string -> string, x: string)
    ensures x in Kept(texts, norm) <==> x != [] && exists t :: t in texts && norm(t) == x
    decreases |texts|
  {
    if texts != [] {
      var init := texts[..|texts| - 1];
      KeptMember(init, norm, x);
      assert texts == init + [texts[|texts| - 1]];
      assert forall t :: t in texts <==> t in init || t == texts[|texts| - 1];
    }
  }

  /** Where the item of text `t` is (`|items|` when there is none). */
  function Find(items: seq<Item>, t: string): (p: nat)
    ensures p <= |items|
    ensures p < |items| ==> items[p].text == t
    ensures forall k :: 0 <= k < p ==> items[k].text != t
    decreases |items|
  {
    if items == [] then 0
    else if items[0].text == t then 0
    else 1 + Find(items[1..], t)
  }

  /** One `Counter` update, `cnt[t] += 1`: the item of `t` counts one more,
      or a new item `(t, 1)` goes to the end. */
  function Bump(items: seq<Item>, t: string): seq<Item>
  {
    var p := Find(items, t);
    if p < |items| then items[p := Item(t, items[p].count + 1)] else items + [Item(t, 1)]
  }

  /** `Counter(xs).items()`: one item per distinct text, in the order of
      first occurrence. */
  function Tally(xs: seq<string>): seq<Item>
    decreases |xs|
  {
    if xs == [] then [] else Bump(Tally(xs[..|xs| - 1]), xs[|xs| - 1])
  }

  /** Where `x` first occurs in `xs` (`|xs|` when it does not). */
  function FirstIndex(xs: seq<string>, x: string): nat
    decreases |xs|
  {
    if xs == [] then 0
    else if x in xs[..|xs| - 1] then FirstIndex(xs[..|xs| - 1], x)
    else if xs[|xs| - 1] == x then |xs| - 1
    else |xs|
  }

  lemma {:induction false} FirstIndexSpec(xs: seq<string>, x: string)
    ensures var r := FirstIndex(xs, x);
      && (x in xs <==> r < |xs|)
      && (x in xs ==> xs[r] == x && x !in xs[..r])
      && (x !in xs ==> r == |xs|)
    decreases |xs|
  {
    if xs != [] {
      var init := xs[..|xs| - 1];
      assert xs == init + [xs[|xs| - 1]];
      FirstIndexSpec(init, x);
      if x in init {
        var r := FirstIndex(init, x);
        assert xs[..r] == init[..r];
      } else {
        assert xs[..|xs| - 1] == init;
      }
    }
  }

  /** The tally has an item for exactly the texts that occur. */
  lemma {:induction false} TallyTexts(xs: seq<string>)
    ensures forall x :: x in xs <==> Find(Tally(xs), x) < |Tally(xs)|
    decreases |xs|
  {
    if xs != [] {
      var init := xs[..|xs| - 1];
      var last := xs[|xs| - 1];
      TallyTexts(init);
      assert xs == init + [last];
      var items := Tally(init);
      var r := Tally(xs);
      assert r == Bump(items, last);
      forall x ensures x in xs <==> Find(r, x) < |r| {
        if x in xs {
          var k := if x != last then Find(items, x) else if Find(items, last) < |items| then Find(items, last) else |items|;
          assert r[k].text == x;
        }
        if Find(r, x) < |r| && x != last {
          assert r[Find(r, x)] == items[Find(r, x)];
        }
      }
    }
  }

  /** The tally has one item per text. */
  lemma {:induction false} TallyDistinct(xs: seq<string>)
    ensures Sorting.DistinctBy(Tally(xs), TextOf)
    decreases |xs|
  {
    if xs != [] {
      var init := xs[..|xs| - 1];
      TallyDistinct(init);
      var items := Tally(init);
      var r := Tally(xs);
      assert forall k :: 0 <= k < |items| ==> r[k].text == items[k].text;
    }
  }

  /** Each item counts the occurrences of its text. */
  lemma {:induction false} TallyCounts(xs: seq<string>)
    ensures forall k :: 0 <= k < |Tally(xs)| ==> Tally(xs)[k].count == multiset(xs)[Tally(xs)[k].text]
    decreases |xs|
  {
    if xs != [] {
      var init := xs[..|xs| - 1];
      var last := xs[|xs| - 1];
      TallyCounts(init);
      TallyTexts(init);
      TallyDistinct(init);
      assert xs == init + [last];
      var items := Tally(init);
      var r := Tally(xs);
      var p := Find(items, last);
      forall k | 0 <= k < |r| ensures r[k].count == multiset(xs)[r[k].text] {
        if k < |items| && k != p {
          assert r[k] == items[k];
          if p < |items| {
            assert TextOf(items[k]) != TextOf(items[p]);
          }
        } else if k < |items| {
          assert r[k].count == items[k].count + 1;
        } else {
          assert last !in init;
        }
      }
    }
  }

  /** Items appear in the order their texts first occur. */
  lemma {:induction false} TallyOrder(xs: seq<string>)
    ensures forall i, j :: 0 <= i < j < |Tally(xs)| ==> FirstIndex(xs, Tally(xs)[i].text) < FirstIndex(xs, Tally(xs)[j].text)
    decreases |xs|
  {
    if xs != [] {
      var init := xs[..|xs| - 1];
      var last := xs[|xs| - 1];
      TallyOrder(init);
      TallyTexts(init);
      var items := Tally(init);
      var r := Tally(xs);
      forall k | 0 <= k < |items|
        ensures FirstIndex(xs, items[k].text) == FirstIndex(init, items[k].text) < |init|
      {
        var x := items[k].text;
        assert Find(items, x) <= k;
        FirstIndexSpec(init, x);
      }
      forall i, j | 0 <= i < j < |r| ensures FirstIndex(xs, r[i].text) < FirstIndex(xs, r[j].text) {
        assert r[i].text == items[i].text;
        if j < |items| {
          assert r[j].text == items[j].text;
        } else {
          assert last !in init;
          assert r[j].text == last && FirstIndex(xs, last) == |init|;
        }
      }
    }
  }

  lemma {:induction false} SumByUpdate(items: seq<Item>, p: nat, v: Item)
    requires p < |items|
    ensures Sorting.SumBy(items[p := v], CountOf) == Sorting.SumBy(items, CountOf) - items[p].count + v.count
    decreases |items|
  {
    var init := items[..|items| - 1];
    if p < |items| - 1 {
      SumByUpdate(init, p, v);
      assert items[p := v][..|items| - 1] == init[p := v];
    } else {
      assert items[p := v][..|items| - 1] == init;
    }
  }

  /** The counts add up to the number of texts. */
  lemma {:induction false} TallySum(xs: seq<string>)
    ensures Sorting.SumBy(Tally(xs), CountOf) == |xs|
    decreases |xs|
  {
    if xs != [] {
      var init := xs[..|xs| - 1];
      TallySum(init);
      assert Tally(xs) == Bump(Tally(init), xs[|xs| - 1]);
      BumpSum(Tally(init), xs[|xs| - 1]);
    }
  }

  /** Counting one more text adds one to the total. */
  lemma BumpSum(items: seq<Item>, t: string)
    ensures Sorting.SumBy(Bump(items, t), CountOf) == Sorting.SumBy(items, CountOf) + 1
  {
    var p := Find(items, t);
    if p < |items| {
      SumByUpdate(items, p, Item(t, items[p].count + 1));
    } else {
      Sorting.SumByAppend(items, [Item(t, 1)], CountOf);
      assert Sorting.SumBy([Item(t, 1)], CountOf) == 1;
    }
  }

  /** `_dedupe_window(texts)` */
  function DedupeWindow(texts: seq<string>): seq<Item>
  {
    Sorting.SortDesc(Tally(Kept(texts, Normalize)), CountKey)
  }

  /** Every item of the window has its own text, a non-empty normal form of
      one of the messages, and counts how many kept messages have it. */
  lemma DedupeWindowItems(texts: seq<string>)
    ensures Sorting.DistinctBy(DedupeWindow(texts), TextOf)
    ensures forall k :: 0 <= k < |DedupeWindow(texts)| ==>
      && DedupeWindow(texts)[k].count == multiset(Kept(texts, Normalize))[DedupeWindow(texts)[k].text]
      && DedupeWindow(texts)[k].text in Kept(texts, Normalize)
      && DedupeWindow(texts)[k].text != []
  {
    var kept := Kept(texts, Normalize);
    var items := Tally(kept);
    var r := DedupeWindow(texts);
    TallyDistinct(kept);
    Sorting.SortDescDistinct(items, CountKey, TextOf);
    TallyCounts(kept);
    TallyTexts(kept);
    forall k | 0 <= k < |r| ensures r[k].count == multiset(kept)[r[k].text] && r[k].text in kept && r[k].text != [] {
      assert r[k] in multiset(items);
      var j :| 0 <= j < |items| && items[j] == r[k];
      assert Find(items, r[k].text) <= j;
      KeptMember(texts, Normalize, r[k].text);
    }
  }

  /** Every kept text has its item, and the counts add up to the number of
      kept messages. */
  lemma DedupeWindowCovers(texts: seq<string>)
    ensures forall x :: x in Kept(texts, Normalize) ==> exists k :: 0 <= k < |DedupeWindow(texts)| && DedupeWindow(texts)[k].text == x
    ensures Sorting.SumBy(DedupeWindow(texts), CountOf) == |Kept(texts, Normalize)|
  {
    var kept := Kept(texts, Normalize);
    var items := Tally(kept);
    var r := DedupeWindow(texts);
    TallyTexts(kept);
    TallySum(kept);
    Sorting.SortDescSum(items, CountKey, CountOf);
    forall x | x in kept ensures exists k :: 0 <= k < |r| && r[k].text == x {
      var j := Find(items, x);
      assert items[j] in multiset(r);
      var k :| 0 <= k < |r| && r[k] == items[j];
    }
  }

  /** Most frequent first; equally frequent texts in the order they first
      occur (the `Counter` order kept by the stable sort). */
  lemma DedupeWindowOrder(texts: seq<string>)
    ensures Sorting.SortedDescThenRank(DedupeWindow(texts), CountKey, (it: Item) => FirstIndex(Kept(texts, Normalize), it.text) as int)
  {
    var kept := Kept(texts, Normalize);
    TallyOrder(kept);
    Sorting.SortDescStable(Tally(kept), CountKey, (it: Item) => FirstIndex(kept, it.text) as int);
  }

  // --------------------------------------------------------- _merge_similar

  /** The default threshold of `_merge_similar`. */
  const MergeThreshold: real := 0.82

  /** What one pass of the inner loop carries: the `used` marks, the text
      kept for the group and its summed count. */
  datatype Group = Group(used: seq<bool>, text: string, count: int)

  /** The test of the inner loop: are the trigram sets of `a` and `b` at
      least `thresh` similar? */
  function Similar(thresh: real): (string, string) -> bool
  {
    (a: string, b: string) => Jaccard(Trigrams(a), Trigrams(b)) >= thresh
  }

  /** The same test against a fixed first text whose trigrams `tri` are
      computed once. */
  function Near(tri: set<string>, thresh: real): string -> bool
  {
    (b: string) => Jaccard(tri, Trigrams(b)) >= thresh
  }

  /** The inner loop from `j` on: each unused later item `similar` to
      `lead` is marked used and absorbed, and its text replaces the kept one
      when it is strictly longer. */
  function Absorb(items: seq<Item>, similar: (string, string) -> bool, lead: string, j: nat, g: Group): (r: Group)
    requires |g.used| == |items|
    ensures |r.used| == |items|
    decreases |items| - j
  {
    if j >= |items| then g
    else if g.used[j] then Absorb(items, similar, lead, j + 1, g)
    else if similar(lead, items[j].text) then
      var text := if |items[j].text| > |g.text| then items[j].text else g.text;
      Absorb(items, similar, lead, j + 1, Group(g.used[j := true], text, g.count + items[j].count))
    else Absorb(items, similar, lead, j + 1, g)
  }

  /** The outer loop from `i` on, after the groups `out`. */
  function MergeFrom(items: seq<Item>, similar: (string, string) -> bool, i: nat, used: seq<bool>, out: seq<Item>): seq<Item>
    requires |used| == |items|
    decreases |items| - i
  {
    if i >= |items| then out
    else if used[i] then MergeFrom(items, similar, i + 1, used, out)
    else
      var g := Absorb(items, similar, items[i].text, i + 1, Group(used, items[i].text, items[i].count));
      MergeFrom(items, similar, i + 1, g.used, out + [Item(g.text, g.count)])
  }

  /** No item is marked yet. */
  function NoneUsed(n: nat): seq<bool>
  {
    seq(n, _ => false)
  }

  /** `_merge_similar(items, thresh)` */
  function MergeSimilar(items: seq<Item>, thresh: real): seq<Item>
  {
    if |items| <= 1 then items
    else Sorting.SortDesc(MergeFrom(items, Similar(thresh), 0, NoneUsed(|items|), []), CountKey)
  }

  /** At most one item comes back as it is; more are ranked by count,
      highest first. */
  lemma MergeSimilarOrder(items: seq<Item>, thresh: real)
    ensures |items| <= 1 ==> MergeSimilar(items, thresh) == items
    ensures |items| > 1 ==> Sorting.SortedDesc(MergeSimilar(items, thresh), CountKey)
  {
  }

  /** The inner loop of `_merge_similar` over the items after `i`. */
  method AbsorbLater(items: seq<Item>, ghost similar: (string, string) -> bool, ghost lead: string, near: string -> bool,
                     used: array<bool>, i: nat, text0: string, count0: int)
    returns (text: string, count: int)
    requires used.Length == |items| && i < |items|
    requires forall b :: near(b) == similar(lead, b)
    modifies used
    ensures Group(used[..], text, count) == Absorb(items, similar, lead, i + 1, Group(old(used[..]), text0, count0))
  {
    ghost var group := Absorb(items, similar, lead, i + 1, Group(used[..], text0, count0));
    text, count := text0, count0;
    var j := i + 1;
    while j < |items|
      invariant i + 1 <= j <= |items|
      invariant Absorb(items, similar, lead, j, Group(used[..], text, count)) == group
    {
      ghost var before := used[..];
      if !used[j] && near(items[j].text) {
        used[j] := true;
        assert used[..] == before[j := true];
        count := count + items[j].count;
        if |items[j].text| > |text| {
          text := items[j].text;
        }
      }
      j := j + 1;
    }
  }

  /** The outer loop of `_merge_similar`: the groups, before sorting. */
  method MergeGroups(items: seq<Item>, thresh: real) returns (out: seq<Item>)
    ensures out == MergeFrom(items, Similar(thresh), 0, NoneUsed(|items|), [])
  {
    var used := new bool[|items|](_ => false);
    assert used[..] == NoneUsed(|items|);
    out := [];
    var i := 0;
    while i < |items|
      invariant 0 <= i <= |items|
      invariant MergeFrom(items, Similar(thresh), i, used[..], out) == MergeFrom(items, Similar(thresh), 0, NoneUsed(|items|), [])
    {
      ghost var before := used[..];
      if !used[i] {
        var near := Near(Trigrams(items[i].text), thresh);
        ghost var g := Absorb(items, Similar(thresh), items[i].text, i + 1, Group(before, items[i].text, items[i].count));
        var text, count := AbsorbLater(items, Similar(thresh), items[i].text, near, used, i, items[i].text, items[i].count);
        assert used[..] == g.used && text == g.text && count == g.count;
        out := out + [Item(text, count)];
      }
      i := i + 1;
    }
  }

  /** `_merge_similar(items, thresh)` */
  method MergeSimilarItems(items: seq<Item>, thresh: real) returns (r: seq<Item>)
    ensures r == MergeSimilar(items, thresh)
  {
    if |items| <= 1 {
      return items;
    }
    var out := MergeGroups(items, thresh);
    r := Sorting.SortDesc(out, CountKey);
  }

  /** The counts of the items from `from` on that are not marked used. */
  function Pending(items: seq<Item>, used: seq<bool>, from: nat): int
    requires |used| == |items|
    decreases |items| - from
  {
    if from >= |items| then 0
    else (if used[from] then 0 else items[from].count) + Pending(items, used, from + 1)
  }

  lemma {:induction false} PendingFrame(items: seq<Item>, u: seq<bool>, v: seq<bool>, from: nat)
    requires |u| == |items| && |v| == |items|
    requires forall k :: from <= k < |items| ==> u[k] == v[k]
    ensures Pending(items, u, from) == Pending(items, v, from)
    decreases |items| - from
  {
    if from < |items| {
      PendingFrame(items, u, v, from + 1);
    }
  }

  /** With nothing marked, the pending count is the plain sum. */
  lemma {:induction false} PendingNone(items: seq<Item>, from: nat)
    requires from <= |items|
    ensures Pending(items, NoneUsed(|items|), from) == Sorting.SumBy(items[from..], CountOf)
    decreases |items| - from
  {
    if from < |items| {
      PendingNone(items, from + 1);
      assert items[from..] == [items[from]] + items[from + 1..];
      Sorting.SumByAppend([items[from]], items[from + 1..], CountOf);
      assert Sorting.SumBy([items[from]], CountOf) == items[from].count;
    } else {
      assert items[from..] == [];
    }
  }

  /** The inner loop only marks items at or after `j`. */
  lemma {:induction false} AbsorbKeeps(items: seq<Item>, similar: (string, string) -> bool, lead: string, j: nat, g: Group)
    requires |g.used| == |items|
    ensures forall k :: 0 <= k < j && k < |items| ==> Absorb(items, similar, lead, j, g).used[k] == g.used[k]
    decreases |items| - j
  {
    if j < |items| && !g.used[j] && similar(lead, items[j].text) {
      var text := if |items[j].text| > |g.text| then items[j].text else g.text;
      AbsorbKeeps(items, similar, lead, j + 1, Group(g.used[j := true], text, g.count + items[j].count));
    } else if j < |items| {
      AbsorbKeeps(items, similar, lead, j + 1, g);
    }
  }

  /** What the inner loop adds to the group is exactly what it marks. */
  lemma {:induction false} AbsorbCount(items: seq<Item>, similar: (string, string) -> bool, lead: string, j: nat, g: Group)
    requires |g.used| == |items|
    ensures Absorb(items, similar, lead, j, g).count + Pending(items, Absorb(items, similar, lead, j, g).used, j)
         == g.count + Pending(items, g.used, j)
    decreases |items| - j
  {
    if j < |items| {
      var r := Absorb(items, similar, lead, j, g);
      if g.used[j] {
        AbsorbCount(items, similar, lead, j + 1, g);
        AbsorbKeeps(items, similar, lead, j + 1, g);
        assert r.used[j];
      } else if similar(lead, items[j].text) {
        var text := if |items[j].text| > |g.text| then items[j].text else g.text;
        var g' := Group(g.used[j := true], text, g.count + items[j].count);
        assert r == Absorb(items, similar, lead, j + 1, g');
        AbsorbCount(items, similar, lead, j + 1, g');
        AbsorbKeeps(items, similar, lead, j + 1, g');
        assert r.used[j];
        PendingFrame(items, g'.used, g.used, j + 1);
      } else {
        AbsorbCount(items, similar, lead, j + 1, g);
        AbsorbKeeps(items, similar, lead, j + 1, g);
        assert !r.used[j];
      }
    }
  }

  /** The outer loop hands on every pending count to exactly one group. */
  lemma {:induction false} MergeFromCount(items: seq<Item>, similar: (string, string) -> bool, i: nat, used: seq<bool>, out: seq<Item>)
    requires |used| == |items|
    ensures Sorting.SumBy(MergeFrom(items, similar, i, used, out), CountOf) == Sorting.SumBy(out, CountOf) + Pending(items, used, i)
    decreases |items| - i
  {
    if i < |items| {
      if used[i] {
        MergeFromCount(items, similar, i + 1, used, out);
      } else {
        var g := Absorb(items, similar, items[i].text, i + 1, Group(used, items[i].text, items[i].count));
        AbsorbCount(items, similar, items[i].text, i + 1, Group(used, items[i].text, items[i].count));
        MergeFromCount(items, similar, i + 1, g.used, out + [Item(g.text, g.count)]);
        assert (out + [Item(g.text, g.count)])[..|out|] == out;
      }
    }
  }

  /** Merging neither loses nor invents messages: the counts add up to the
      same total. */
  lemma MergeSimilarCount(items: seq<Item>, thresh: real)
    ensures Sorting.SumBy(MergeSimilar(items, thresh), CountOf) == Sorting.SumBy(items, CountOf)
  {
    if |items| > 1 {
      var groups := MergeFrom(items, Similar(thresh), 0, NoneUsed(|items|), []);
      MergeFromCount(items, Similar(thresh), 0, NoneUsed(|items|), []);
      PendingNone(items, 0);
      assert items[0..] == items;
      Sorting.SortDescSum(groups, CountKey, CountOf);
    }
  }

  /** The outer loop emits at most one group per remaining item. */
  lemma {:induction false} MergeFromSize(items: seq<Item>, similar: (string, string) -> bool, i: nat, used: seq<bool>, out: seq<Item>)
    requires |used| == |items| && i <= |items|
    ensures |MergeFrom(items, similar, i, used, out)| <= |out| + |items| - i
    decreases |items| - i
  {
    if i < |items| {
      if used[i] {
        MergeFromSize(items, similar, i + 1, used, out);
      } else {
        var g := Absorb(items, similar, items[i].text, i + 1, Group(used, items[i].text, items[i].count));
        MergeFromSize(items, similar, i + 1, g.used, out + [Item(g.text, g.count)]);
      }
    }
  }

  /** No more items come out than went in. */
  lemma MergeSimilarSize(items: seq<Item>, thresh: real)
    ensures |MergeSimilar(items, thresh)| <= |items|
  {
    if |items| > 1 {
      MergeFromSize(items, Similar(thresh), 0, NoneUsed(|items|), []);
    }
  }

  /** The group keeps one of its members' texts, never a shorter one than
      it started with. */
  lemma {:induction false} AbsorbText(items: seq<Item>, similar: (string, string) -> bool, lead: string, j: nat, g: Group)
    requires |g.used| == |items|
    ensures g.text in Texts(items) ==> Absorb(items, similar, lead, j, g).text in Texts(items)
    ensures |Absorb(items, similar, lead, j, g).text| >= |g.text|
    decreases |items| - j
  {
    if j < |items| && !g.used[j] && similar(lead, items[j].text) {
      var text := if |items[j].text| > |g.text| then items[j].text else g.text;
      assert items[j] in items;
      AbsorbText(items, similar, lead, j + 1, Group(g.used[j := true], text, g.count + items[j].count));
    } else if j < |items| {
      AbsorbText(items, similar, lead, j + 1, g);
    }
  }

  lemma {:induction false} MergeFromTexts(items: seq<Item>, similar: (string, string) -> bool, i: nat, used: seq<bool>, out: seq<Item>)
    requires |used| == |items|
    requires forall o :: o in out ==> o.text in Texts(items)
    ensures forall o :: o in MergeFrom(items, similar, i, used, out) ==> o.text in Texts(items)
    decreases |items| - i
  {
    if i < |items| {
      if used[i] {
        MergeFromTexts(items, similar, i + 1, used, out);
      } else {
        var g := Absorb(items, similar, items[i].text, i + 1, Group(used, items[i].text, items[i].count));
        assert items[i] in items;
        AbsorbText(items, similar, items[i].text, i + 1, Group(used, items[i].text, items[i].count));
        MergeFromTexts(items, similar, i + 1, g.used, out + [Item(g.text, g.count)]);
      }
    }
  }

  /** Every merged item carries the text of one of the input items. */
  lemma MergeSimilarTexts(items: seq<Item>, thresh: real)
    ensures forall o :: o in MergeSimilar(items, thresh) ==> o.text in Texts(items)
  {
    if |items| > 1 {
      var groups := MergeFrom(items, Similar(thresh), 0, NoneUsed(|items|), []);
      MergeFromTexts(items, Similar(thresh), 0, NoneUsed(|items|), []);
      assert forall o :: o in MergeSimilar(items, thresh) ==> o in multiset(groups);
    } else {
      assert forall o :: o in items ==> o.text in Texts(items);
    }
  }

  /** No similar item after `j`: the group stays as it is. */
  lemma {:induction false} AbsorbNone(items: seq<Item>, similar: (string, string) -> bool, lead: string, j: nat, g: Group)
    requires |g.used| == |items|
    requires forall k :: j <= k < |items| ==> !similar(lead, items[k].text)
    ensures Absorb(items, similar, lead, j, g) == g
    decreases |items| - j
  {
    if j < |items| {
      AbsorbNone(items, similar, lead, j + 1, g);
    }
  }

  lemma {:induction false} MergeFromNone(items: seq<Item>, similar: (string, string) -> bool, i: nat, out: seq<Item>)
    requires i <= |items|
    requires forall a, b :: 0 <= a < b < |items| ==> !similar(items[a].text, items[b].text)
    ensures MergeFrom(items, similar, i, NoneUsed(|items|), out) == out + items[i..]
    decreases |items| - i
  {
    if i < |items| {
      var none := NoneUsed(|items|);
      AbsorbNone(items, similar, items[i].text, i + 1, Group(none, items[i].text, items[i].count));
      MergeFromNone(items, similar, i + 1, out + [items[i]]);
      assert items[i..] == [items[i]] + items[i + 1..];
    }
  }

  /** When no two items are similar enough, merging only re-sorts them. */
  lemma MergeSimilarNone(items: seq<Item>, thresh: real)
    requires forall a, b :: 0 <= a < b < |items| ==> Jaccard(Trigrams(items[a].text), Trigrams(items[b].text)) < thresh
    ensures multiset(MergeSimilar(items, thresh)) == multiset(items)
  {
    if |items| > 1 {
      RankedNone(items, Similar(thresh));
    }
  }

  /** With no similar pair, grouping keeps every item and sorting permutes them. */
  lemma RankedNone(items: seq<Item>, similar: (string, string) -> bool)
    requires forall a, b :: 0 <= a < b < |items| ==> !similar(items[a].text, items[b].text)
    ensures multiset(Sorting.SortDesc(MergeFrom(items, similar, 0, NoneUsed(|items|), []), CountKey)) == multiset(items)
  {
    MergeFromNone(items, similar, 0, []);
    assert [] + items[0..] == items;
  }
}

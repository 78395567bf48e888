/** The FAQ extraction pipeline of the edge function: the designonstock
    slice, the three heuristic extractors, the JSON-LD FAQPage reader and
    the orchestrator that combines them.

    Regular-expression match sites whose grammar is beyond a character
    predicate are inputs: the heading matches of `extractBlocksLoosely`, the
    label matches of `extractFaqPatterns`, and the `JSON.parse` result of
    each JSON-LD script block. */
module FaqExtract {
  import opened Strings
  import opened FaqText
  import opened JsonValue

  datatype Pair = Pair(question: string, answer: string)

  /** `idx` lists positions in strictly increasing order. */
  predicate Increasing(idx: seq<nat>) {
    forall k, l :: 0 <= k < l < |idx| ==> idx[k] < idx[l]
  }

  /** Appending a position beyond all others keeps a position list increasing. */
  lemma IncreasingSnoc(idx: seq<nat>, j: nat)
    requires Increasing(idx)
    requires forall k :: 0 <= k < |idx| ==> idx[k] < j
    ensures Increasing(idx + [j])
  {}

  function Min(a: nat, b: nat): nat {
    if a <= b then a else b
  }

  /** `s.replace(/\r?\n/g, " ")` from index `i` on: every line break becomes
      one space. */
  function FlattenFrom(s: string, i: nat): (r: string)
    requires i <= |s|
    ensures '\n' !in r
    ensures |r| <= |s| - i
    decreases |s| - i
  {
    if i == |s| then []
    else if s[i] == '\n' then " " + FlattenFrom(s, i + 1)
    else if s[i] == '\r' && i + 1 < |s| && s[i + 1] == '\n' then " " + FlattenFrom(s, i + 2)
    else [s[i]] + FlattenFrom(s, i + 1)
  }

  /** `html.replace(/\r?\n/g, " ")` */
  function FlattenLines(s: string): (r: string)
    ensures '\n' !in r
    ensures |r| <= |s|
  {
    FlattenFrom(s, 0)
  }

  /** A line without its trailing carriage return, if it has one. */
  function DropCR(a: string): string {
    if a != [] && a[|a| - 1] == '\r' then a[..|a| - 1] else a
  }

  /** Text without a line feed is kept as it is. */
  lemma FlattenNoBreak(s: string)
    requires '\n' !in s
    ensures FlattenLines(s) == s
  {
    forall j | 0 <= j < |s| ensures NoBreakAt(s, j) {
      assert s[j] in s;
      if j + 1 < |s| {
        assert s[j + 1] in s;
      }
    }
    FlattenPlain(s, 0, |s|);
    assert s[0..|s|] == s;
  }

  /** Up to its first line feed, text is kept; that line feed, with the
      carriage return right before it, becomes one space, and the rest is
      flattened on its own. */
  lemma FlattenBreak(a: string, b: string)
    requires '\n' !in a
    ensures FlattenLines(a + "\n" + b) == DropCR(a) + " " + FlattenLines(b)
  {
    var x := a + "\n" + b;
    FlattenLine(a, b);
    FlattenAtBreak(a, b);
    FlattenShift(a + "\n", b, 0);
    assert x == (a + "\n") + b;
  }

  /** The line before the first line feed, without its carriage return, is
      copied unchanged. */
  lemma FlattenLine(a: string, b: string)
    requires '\n' !in a
    ensures FlattenFrom(a + "\n" + b, 0) == DropCR(a) + FlattenFrom(a + "\n" + b, |DropCR(a)|)
  {
    var x := a + "\n" + b;
    var k := |DropCR(a)|;
    forall j | 0 <= j < k ensures NoBreakAt(x, j) {
      assert x[j] == a[j];
      if j + 1 < |a| {
        assert x[j + 1] == a[j + 1];
      }
    }
    FlattenPlain(x, 0, k);
    assert x[0..k] == DropCR(a);
  }

  /** The first line break, with its carriage return, becomes one space. */
  lemma FlattenAtBreak(a: string, b: string)
    requires '\n' !in a
    ensures FlattenFrom(a + "\n" + b, |DropCR(a)|) == " " + FlattenFrom(a + "\n" + b, |a| + 1)
  {
    var x := a + "\n" + b;
    assert x[|a|] == '\n';
    if a != [] && a[|a| - 1] == '\r' {
      assert x[|a| - 1] == '\r';
    }
  }

  /** No line break, `\n` or `\r\n`, starts at `j`. */
  predicate NoBreakAt(s: string, j: nat)
    requires j < |s|
  {
    s[j] != '\n' && !(s[j] == '\r' && j + 1 < |s| && s[j + 1] == '\n')
  }

  /** A stretch holding no line break is copied unchanged. */
  lemma {:induction false} FlattenPlain(s: string, i: nat, k: nat)
    requires i <= k <= |s|
    requires forall j :: i <= j < k ==> NoBreakAt(s, j)
    ensures FlattenFrom(s, i) == s[i..k] + FlattenFrom(s, k)
    decreases k - i
  {
    if i < k {
      FlattenPlain(s, i + 1, k);
      assert NoBreakAt(s, i);
      assert FlattenFrom(s, i) == [s[i]] + FlattenFrom(s, i + 1);
      assert s[i..k] == [s[i]] + s[i + 1..k];
      Assoc([s[i]], s[i + 1..k], FlattenFrom(s, k));
    }
  }

  /** Flattening from a position depends only on the text from there on. */
  lemma {:induction false} FlattenShift(p: string, q: string, j: nat)
    requires j <= |q|
    ensures FlattenFrom(p + q, |p| + j) == FlattenFrom(q, j)
    decreases |q| - j
  {
    if j < |q| {
      var x := p + q;
      assert x[|p| + j] == q[j];
      if j + 1 < |q| {
        assert x[|p| + j + 1] == q[j + 1];
      }
      FlattenShift(p, q, j + 1);
      if j + 2 <= |q| {
        FlattenShift(p, q, j + 2);
      }
    }
  }

  /** `s.slice(a, b)` for non-negative indexes: both are clamped to the
      length, and the result is empty when `b` is not after `a`. */
  function JsSlice(s: string, a: nat, b: nat): (r: string)
    ensures |r| <= |s|
  {
    var a' := if a < |s| then a else |s|;
    var b' := if b < |s| then b else |s|;
    if a' < b' then Substring(s, a', b') else ""
  }

  /** Within bounds, `slice` is the plain substring. */
  lemma JsSliceInBounds(s: string, a: nat, b: nat)
    requires a <= b <= |s|
    ensures JsSlice(s, a, b) == s[a..b]
  {
    SubstringIsSlice(s, a, b);
  }

  /** `stripTagsKeepBreaks(s).trim()` */
  function Clean(s: string): string {
    Trim(StripTagsKeepBreaks(s))
  }

  /** The second trim changes nothing: the stripped text is already trimmed. */
  lemma CleanIsStripped(s: string)
    ensures Clean(s) == StripTagsKeepBreaks(s)
  {
    TrimOfTrimmed(StripTagsKeepBreaks(s));
  }

  // ---------------------------------------------------------------------
  // Filtering

  /** The elements among the first `n` of `xs` that satisfy `ok`, in order:
      what a loop pushing each element that passes a test builds. */
  function Keep<T>(xs: seq<T>, ok: T -> bool, n: nat): (r: seq<T>)
    requires n <= |xs|
    ensures |r| <= n
  {
    if n == 0 then [] else Keep(xs, ok, n - 1) + (if ok(xs[n - 1]) then [xs[n - 1]] else [])
  }

  /** `xs.filter(ok)` */
  function Filter<T>(xs: seq<T>, ok: T -> bool): seq<T> {
    Keep(xs, ok, |xs|)
  }

  /** The positions of the elements `Keep` keeps. */
  ghost function KeptIndexes<T>(xs: seq<T>, ok: T -> bool, n: nat): seq<nat>
    requires n <= |xs|
  {
    if n == 0 then [] else KeptIndexes(xs, ok, n - 1) + (if ok(xs[n - 1]) then [n - 1] else [])
  }

  lemma {:induction false} KeepSpec<T>(xs: seq<T>, ok: T -> bool, n: nat)
    requires n <= |xs|
    ensures var idx := KeptIndexes(xs, ok, n);
      var r := Keep(xs, ok, n);
      && |idx| == |r| && Increasing(idx)
      && (forall k :: 0 <= k < |idx| ==> idx[k] < n && r[k] == xs[idx[k]] && ok(xs[idx[k]]))
      && (forall i :: 0 <= i < n && ok(xs[i]) ==> i in idx)
  {
    if n > 0 {
      KeepSpec(xs, ok, n - 1);
      var prev := Keep(xs, ok, n - 1);
      var pidx := KeptIndexes(xs, ok, n - 1);
      if ok(xs[n - 1]) {
        assert Keep(xs, ok, n) == prev + [xs[n - 1]];
        assert KeptIndexes(xs, ok, n) == pidx + [n - 1];
        IncreasingSnoc(pidx, n - 1);
      } else {
        assert Keep(xs, ok, n) == prev;
        assert KeptIndexes(xs, ok, n) == pidx;
      }
    }
  }

  /** A filter keeps exactly the elements that pass, in their order: the
      result is the subsequence of `xs` at the increasing positions of the
      passing elements. */
  lemma FilterSpec<T>(xs: seq<T>, ok: T -> bool)
    ensures var r := Filter(xs, ok);
      && |r| <= |xs|
      && (forall x :: x in r ==> x in xs && ok(x))
      && (forall i :: 0 <= i < |xs| && ok(xs[i]) ==> xs[i] in r)
      && exists idx: seq<nat> ::
           && |idx| == |r| && Increasing(idx)
           && (forall k :: 0 <= k < |idx| ==> idx[k] < |xs| && r[k] == xs[idx[k]])
           && (forall i :: 0 <= i < |xs| && ok(xs[i]) ==> i in idx)
  {
    var r := Filter(xs, ok);
    KeepSpec(xs, ok, |xs|);
    var idx := KeptIndexes(xs, ok, |xs|);
    forall x | x in r ensures x in xs && ok(x) {
      var k :| 0 <= k < |r| && r[k] == x;
      assert r[k] == xs[idx[k]];
    }
    forall i | 0 <= i < |xs| && ok(xs[i]) ensures xs[i] in r {
      var k :| 0 <= k < |idx| && idx[k] == i;
      assert r[k] == xs[i];
    }
  }

  /** Everything a filter keeps passes the test. */
  lemma FilterPasses<T>(xs: seq<T>, ok: T -> bool)
    ensures |Filter(xs, ok)| <= |xs|
    ensures forall x :: x in Filter(xs, ok) ==> ok(x)
  {
    FilterSpec(xs, ok);
  }

  /** `f` applied to every element of `xs`. */
  function Map<A, B>(xs: seq<A>, f: A -> B): (r: seq<B>)
    ensures |r| == |xs|
  {
    seq(|xs|, k requires 0 <= k < |xs| => f(xs[k]))
  }

  /** What a map-then-filter returns: at most one element per input, each
      of them passing `ok` and the image under `f` of some input. */
  lemma MapFilterSpec<A, B>(xs: seq<A>, f: A -> B, ok: B -> bool)
    ensures |Filter(Map(xs, f), ok)| <= |xs|
    ensures forall y :: y in Filter(Map(xs, f), ok) ==>
      ok(y) && exists i :: 0 <= i < |xs| && y == f(xs[i])
  {
    var ys := Map(xs, f);
    FilterSpec(ys, ok);
    forall y | y in Filter(ys, ok) ensures exists i :: 0 <= i < |xs| && y == f(xs[i]) {
      var i :| 0 <= i < |ys| && ys[i] == y;
    }
  }

  /** A map-then-filter keeps the images of the inputs that pass, in input
      order: the `k`-th output is the image of the `idx[k]`-th input, and
      every input whose image passes is among them. */
  lemma MapFilterOrder<A, B>(xs: seq<A>, f: A -> B, ok: B -> bool) returns (idx: seq<nat>)
    ensures |idx| == |Filter(Map(xs, f), ok)| && Increasing(idx)
    ensures forall k :: 0 <= k < |idx| ==> idx[k] < |xs| && Filter(Map(xs, f), ok)[k] == f(xs[idx[k]])
    ensures forall i :: 0 <= i < |xs| && ok(f(xs[i])) ==> i in idx
  {
    var ys := Map(xs, f);
    FilterSpec(ys, ok);
    var r := Filter(ys, ok);
    idx :| && |idx| == |r| && Increasing(idx)
      && (forall k :: 0 <= k < |idx| ==> idx[k] < |ys| && r[k] == ys[idx[k]])
      && (forall i :: 0 <= i < |ys| && ok(ys[i]) ==> i in idx);
    forall i | 0 <= i < |xs| && ok(f(xs[i])) ensures i in idx {
      assert ys[i] == f(xs[i]);
    }
  }

  /** One step of a loop that pushes the elements passing `ok`. */
  lemma KeepStep<T>(xs: seq<T>, ok: T -> bool, i: nat)
    requires i < |xs|
    ensures Keep(xs, ok, i + 1) == if ok(xs[i]) then Keep(xs, ok, i) + [xs[i]] else Keep(xs, ok, i)
  {}

  /** The loop every extractor runs over its matches: compute the candidate
      of each match with `f` and push it when it passes `ok`. */
  method MapFilter<A, B>(xs: seq<A>, f: A -> B, ok: B -> bool) returns (r: seq<B>)
    ensures r == Filter(Map(xs, f), ok)
  {
    ghost var ys := Map(xs, f);
    r := [];
    var i := 0;
    while i < |xs|
      invariant i <= |xs|
      invariant r == Keep(ys, ok, i)
    {
      KeepStep(ys, ok, i);
      var y := f(xs[i]);
      if ok(y) {
        r := r + [y];
      }
      i := i + 1;
    }
  }

  // ---------------------------------------------------------------------
  // sliceDosFaq

  const FaqMarker := "veelgestelde vragen"

  /** The markers of the sections that follow the FAQ on the site. */
  const EndMarkers: seq<string> := ["meer service", "©", "<footer", "contact", "klantenservice"]

  /** `filter((i) => i > 0)` */
  function Positives(xs: seq<int>): (r: seq<nat>)
    ensures forall x :: x in r ==> x in xs && x > 0
    ensures forall x :: x in xs && x > 0 ==> x in r
  {
    if xs == [] then []
    else (if xs[0] > 0 then [xs[0] as nat] else []) + Positives(xs[1..])
  }

  /** `Math.min(...xs)` */
  function Minimum(xs: seq<nat>): (m: nat)
    requires xs != []
    ensures m in xs
    ensures forall x :: x in xs ==> m <= x
  {
    if |xs| == 1 then xs[0]
    else
      var rest := Minimum(xs[1..]);
      assert forall x :: x in xs ==> x == xs[0] || x in xs[1..];
      if xs[0] <= rest then xs[0] else rest
  }

  /** Where each end marker first occurs in `lower` at or after `start`, or -1. */
  function EndPositions(lower: string, start: nat): (r: seq<int>)
    requires start <= |lower|
    ensures |r| == |EndMarkers|
  {
    seq(|EndMarkers|, k requires 0 <= k < |EndMarkers| => IndexOf(lower, EndMarkers[k], start))
  }

  /** The end of the slice: the nearest positive end-marker position, or
      the length of the page when there is none. */
  function SliceEnd(lower: string, start: nat): (e: nat)
    requires start <= |lower|
    ensures start <= e <= |lower|
  {
    var candidates := Positives(EndPositions(lower, start));
    if candidates != [] then
      assert Minimum(candidates) in candidates;
      Minimum(candidates)
    else |lower|
  }

  /** `sliceDosFaq`: from the first "veelgestelde vragen" (any case) up to the
      nearest following end marker, or the whole page when the heading is
      absent. `lower` has the length of `html`, so its positions are the
      page's. */
  function SliceDosFaq(html: string): (r: string)
    ensures |r| <= |html|
  {
    var lower := Lower(html);
    var start := IndexOf(lower, FaqMarker, 0);
    if start < 0 then html else JsSlice(html, start, SliceEnd(lower, start))
  }

  /** After an occurrence of the heading, the slice ends at the first end
      marker that follows it, and there is at least the heading before that. */
  lemma SliceEndSpec(lower: string, start: nat)
    requires OccursAt(lower, start, FaqMarker)
    ensures var e := SliceEnd(lower, start);
      && start < e
      && (forall k, i :: 0 <= k < |EndMarkers| && start <= i < e ==> !OccursAt(lower, i, EndMarkers[k]))
      && (e < |lower| ==> exists k :: 0 <= k < |EndMarkers| && OccursAt(lower, e, EndMarkers[k]))
  {
    var found := EndPositions(lower, start);
    var candidates := Positives(found);
    var e := SliceEnd(lower, start);
    // No end marker starts where the heading does: their first letters differ.
    forall k | 0 <= k < |EndMarkers| ensures !OccursAt(lower, start, EndMarkers[k]) {
      assert lower[start + 0] == FaqMarker[0];
      assert EndMarkers[k][0] != 'v';
    }
    forall k, i | 0 <= k < |EndMarkers| && start <= i < e
      ensures !OccursAt(lower, i, EndMarkers[k])
    {
      if i > start && found[k] != -1 {
        assert found[k] in candidates;
      }
    }
    if candidates != [] {
      var k :| 0 <= k < |EndMarkers| && found[k] == e;
      assert OccursAt(lower, e, EndMarkers[k]);
    } else {
      assert start + |FaqMarker| <= |lower|;
    }
  }

  /** The slice is the whole page when the heading is absent; otherwise it is
      the part of the page that starts at the first occurrence of the heading
      and runs to the first end marker after it, or to the end of the page. */
  lemma SliceDosFaqSpec(html: string)
    ensures var lower := Lower(html);
      !Contains(lower, FaqMarker) ==> SliceDosFaq(html) == html
    ensures var lower := Lower(html);
      Contains(lower, FaqMarker) ==>
        exists a, b ::
          && 0 <= a < b <= |html|
          && SliceDosFaq(html) == html[a..b]
          && OccursAt(lower, a, FaqMarker)
          && (forall i :: 0 <= i < a ==> !OccursAt(lower, i, FaqMarker))
          && (forall k, i :: 0 <= k < |EndMarkers| && a <= i < b ==> !OccursAt(lower, i, EndMarkers[k]))
          && (b < |html| ==> exists k :: 0 <= k < |EndMarkers| && OccursAt(lower, b, EndMarkers[k]))
  {
    var lower := Lower(html);
    var start := IndexOf(lower, FaqMarker, 0);
    if start >= 0 {
      var e := SliceEnd(lower, start);
      SliceEndSpec(lower, start);
      JsSliceInBounds(html, start, e);
      assert SliceDosFaq(html) == html[start..e];
    }
  }

  // ---------------------------------------------------------------------
  // extractBlocksLoosely

  /** One match of `<(h2|h3|strong|button|summary|dt)[^>]*>(.*?)<\/\1>` in the
      flattened page: where it starts and ends and its inner capture. */
  datatype HeadingMatch = HeadingMatch(start: nat, end: nat, inner: string)

  /** A heading whose stripped text was accepted as a question. */
  datatype Anchor = Anchor(text: string, start: nat, end: nat)

  /** The test a heading's stripped text must pass to become an anchor. */
  predicate IsAnchorText(text: string) {
    IsQuestion(text) && !IsNoise(text) && |text| < 180
  }

  predicate IsAnchor(a: Anchor) {
    IsAnchorText(a.text)
  }

  /** A heading match with its inner capture stripped. */
  function HeadingAnchor(m: HeadingMatch): Anchor {
    Anchor(StripTagsKeepBreaks(m.inner), m.start, m.end)
  }

  /** The anchors the first loop of `extractBlocksLoosely` collects, in match order. */
  function Anchors(ms: seq<HeadingMatch>): seq<Anchor> {
    Filter(Map(ms, HeadingAnchor), IsAnchor)
  }

  /** Every anchor's text passes the anchor test, and every anchor is a
      heading match with its inner capture stripped. */
  lemma AnchorsSpec(ms: seq<HeadingMatch>)
    ensures |Anchors(ms)| <= |ms|
    ensures forall a :: a in Anchors(ms) ==>
      IsAnchorText(a.text) && exists i :: 0 <= i < |ms| && a == HeadingAnchor(ms[i])
  {
    MapFilterSpec(ms, HeadingAnchor, IsAnchor);
  }

  /** The anchors are the heading matches whose stripped text passes the
      anchor test, in page order, and none of those is skipped. */
  lemma AnchorsOrder(ms: seq<HeadingMatch>)
    ensures exists idx: seq<nat> ::
      && |idx| == |Anchors(ms)| && Increasing(idx)
      && (forall k :: 0 <= k < |idx| ==> idx[k] < |ms| && Anchors(ms)[k] == HeadingAnchor(ms[idx[k]]))
      && (forall i :: 0 <= i < |ms| && IsAnchorText(HeadingAnchor(ms[i]).text) ==> i in idx)
  {
    var idx := MapFilterOrder(ms, HeadingAnchor, IsAnchor);
    assert forall i :: 0 <= i < |ms| && IsAnchorText(HeadingAnchor(ms[i]).text) ==> i in idx;
  }

  /** The elements `<(header|footer|nav|form|aside)...<\/\1>` removed from an answer region. */
  const RegionNames: seq<string> := ["header", "footer", "nav", "form", "aside"]

  /** A question text and an answer text as they were found, before cleaning. */
  datatype RawPair = RawPair(question: string, answer: string)

  /** Where the answer region of anchor `i` ends: at the start of the next
      anchor, or at the end of the page. */
  function NextStart(h: string, anchors: seq<Anchor>, i: nat): nat
    requires i < |anchors|
  {
    if i + 1 < |anchors| then anchors[i + 1].start else |h|
  }

  /** Each anchor's text with the flattened page between its end and the
      next anchor's start. */
  function LooseRegions(h: string, anchors: seq<Anchor>): (r: seq<RawPair>)
    ensures |r| == |anchors|
  {
    seq(|anchors|, k requires 0 <= k < |anchors| =>
      RawPair(anchors[k].text, JsSlice(h, anchors[k].end, NextStart(h, anchors, k))))
  }

  /** An answer region with its header, footer, nav, form and aside
      elements blanked, stripped. */
  function RegionText(raw: string): string {
    StripTagsKeepBreaks(ReplaceAll(Element(RegionNames), raw, " "))
  }

  function LoosePair(r: RawPair): Pair {
    Pair(r.question, RegionText(r.answer))
  }

  /** An answer survives when it is non-empty, not noise and at least 40 long. */
  predicate IsLooseAnswer(ans: string) {
    ans != "" && !IsNoise(ans) && |ans| >= 40
  }

  predicate IsLoosePair(p: Pair) {
    IsLooseAnswer(p.answer)
  }

  /** `extractBlocksLoosely(html)`, given the heading matches of the flattened page. */
  function LooseBlocks(html: string, ms: seq<HeadingMatch>): seq<Pair> {
    Filter(Map(LooseRegions(FlattenLines(html), Anchors(ms)), LoosePair), IsLoosePair)
  }

  /** At most one pair per heading; every question is an anchor's text, so
      it is a question, not noise and shorter than 180; every answer is
      non-empty, not noise and at least 40 long, and is the cleaned text
      between that anchor and the next one. */
  lemma LooseBlocksSpec(html: string, ms: seq<HeadingMatch>)
    ensures |LooseBlocks(html, ms)| <= |ms|
    ensures var h := FlattenLines(html);
      var anchors := Anchors(ms);
      forall p :: p in LooseBlocks(html, ms) ==>
        && IsAnchorText(p.question) && IsLooseAnswer(p.answer)
        && exists i :: 0 <= i < |anchors| && p.question == anchors[i].text
             && p.answer == RegionText(JsSlice(h, anchors[i].end, NextStart(h, anchors, i)))
  {
    var h := FlattenLines(html);
    var anchors := Anchors(ms);
    var regions := LooseRegions(h, anchors);
    AnchorsSpec(ms);
    MapFilterSpec(regions, LoosePair, IsLoosePair);
    forall p | p in LooseBlocks(html, ms)
      ensures IsAnchorText(p.question)
    {
      var i :| 0 <= i < |regions| && p == LoosePair(regions[i]);
      assert anchors[i] in anchors;
    }
  }

  /** The loose pairs come one per surviving anchor, in page order: the
      `k`-th pair is the text of anchor `idx[k]` with the cleaned region up
      to the next anchor, and every anchor whose region survives gives a
      pair. */
  lemma LooseBlocksOrder(html: string, ms: seq<HeadingMatch>)
    ensures var h := FlattenLines(html);
      var anchors := Anchors(ms);
      var r := LooseBlocks(html, ms);
      exists idx: seq<nat> ::
        && |idx| == |r| && Increasing(idx)
        && (forall k :: 0 <= k < |idx| ==>
              && idx[k] < |anchors| && r[k].question == anchors[idx[k]].text
              && r[k].answer == RegionText(JsSlice(h, anchors[idx[k]].end, NextStart(h, anchors, idx[k]))))
        && (forall i :: 0 <= i < |anchors| && IsLooseAnswer(RegionText(JsSlice(h, anchors[i].end, NextStart(h, anchors, i))))
              ==> i in idx)
  {
    var idx := LooseRegionsOrder(FlattenLines(html), Anchors(ms));
  }

  /** The pairs kept from the regions of `anchors` on the page `h`, with
      the positions of the anchors they come from. */
  lemma LooseRegionsOrder(h: string, anchors: seq<Anchor>) returns (idx: seq<nat>)
    ensures var r := Filter(Map(LooseRegions(h, anchors), LoosePair), IsLoosePair);
      && |idx| == |r| && Increasing(idx)
      && (forall k :: 0 <= k < |idx| ==>
            && idx[k] < |anchors| && r[k].question == anchors[idx[k]].text
            && r[k].answer == RegionText(JsSlice(h, anchors[idx[k]].end, NextStart(h, anchors, idx[k]))))
      && (forall i :: 0 <= i < |anchors| && IsLooseAnswer(RegionText(JsSlice(h, anchors[i].end, NextStart(h, anchors, i))))
            ==> i in idx)
  {
    var regions := LooseRegions(h, anchors);
    var r := Filter(Map(regions, LoosePair), IsLoosePair);
    idx := MapFilterOrder(regions, LoosePair, IsLoosePair);
    forall k | 0 <= k < |idx|
      ensures && idx[k] < |anchors| && r[k].question == anchors[idx[k]].text
              && r[k].answer == RegionText(JsSlice(h, anchors[idx[k]].end, NextStart(h, anchors, idx[k])))
    {
      assert r[k] == LoosePair(regions[idx[k]]);
    }
    forall i | 0 <= i < |anchors| && IsLooseAnswer(RegionText(JsSlice(h, anchors[i].end, NextStart(h, anchors, i))))
      ensures i in idx
    {
      assert IsLoosePair(LoosePair(regions[i]));
    }
  }

  /** `extractBlocksLoosely`: collect the question anchors, then pair each
      with the text up to the next anchor when that text survives. */
  method ExtractBlocksLoosely(html: string, ms: seq<HeadingMatch>) returns (pairs: seq<Pair>)
    ensures pairs == LooseBlocks(html, ms)
  {
    var h := FlattenLines(html);
    var anchors := MapFilter(ms, HeadingAnchor, IsAnchor);
    pairs := MapFilter(LooseRegions(h, anchors), LoosePair, IsLoosePair);
  }

  // ---------------------------------------------------------------------
  // extractQuestionsAggressively

  predicate IsTerminator(c: char) {
    c == '.' || c == '!' || c == '?'
  }

  /** The first index at or after `from` holding `.`, `!` or `?`, or -1
      (`search(/[.!?]/)` on the text from `from` on, shifted by `from`). */
  function NextTerminator(s: string, from: nat): (r: int)
    requires from <= |s|
    ensures r == -1 || (from <= r < |s| && IsTerminator(s[r]))
    ensures forall i :: from <= i < |s| && (r == -1 || i < r) ==> !IsTerminator(s[i])
    decreases |s| - from
  {
    if from == |s| then -1
    else if IsTerminator(s[from]) then from
    else NextTerminator(s, from + 1)
  }

  datatype Span = Span(start: nat, end: nat)

  /** The matches of `/([^.!?]*\?)/g` from `from` on: each sentence, counted
      from just after the previous terminator, whose terminator is `?`. */
  function QuestionSpans(h: string, from: nat): (r: seq<Span>)
    requires from <= |h|
    ensures forall sp :: sp in r ==> from <= sp.start < sp.end <= |h|
    ensures forall sp :: sp in r ==> h[sp.end - 1] == '?'
    ensures forall sp, i :: sp in r && sp.start <= i < sp.end - 1 ==> !IsTerminator(h[i])
    decreases |h| - from
  {
    var k := NextTerminator(h, from);
    if k < 0 then []
    else if h[k] == '?' then [Span(from, k + 1)] + QuestionSpans(h, k + 1)
    else QuestionSpans(h, k + 1)
  }

  /** The raw answer after a question ending at `end`: with `next` the
      position of the next terminator relative to `end`, the text up to it
      when it is positive, otherwise the next 500 characters. */
  function AggressiveAnswerRaw(h: string, end: nat): string {
    var e := Min(end, |h|);
    var t := NextTerminator(h, e);
    var next := if t < 0 then -1 else t - e;
    if next > 0 then JsSlice(h, e, e + next) else JsSlice(h, e, e + 500)
  }

  /** Each question span with the text after it. */
  function SpanTexts(h: string, spans: seq<Span>): (r: seq<RawPair>)
    ensures |r| == |spans|
  {
    seq(|spans|, k requires 0 <= k < |spans| =>
      RawPair(JsSlice(h, spans[k].start, spans[k].end), AggressiveAnswerRaw(h, spans[k].end)))
  }

  /** Both texts of a match passed through `stripTagsKeepBreaks(..).trim()`. */
  function CleanPair(r: RawPair): Pair {
    Pair(Clean(r.question), Clean(r.answer))
  }

  /** The filter on an aggressive question candidate. */
  predicate IsAggressiveQuestion(q: string) {
    && |q| > 15 && |q| < 200
    && !IsNoise(q)
    && !Contains(q, "/") && !Contains(q, "http") && !Contains(q, "www")
    && !Contains(q, "gtag") && !Contains(q, "script") && !Contains(q, "com/")
    && !Contains(q, ".js")
    && IsQuestion(q)
  }

  predicate IsAggressiveAnswer(a: string) {
    |a| > 50 && !IsNoise(a)
  }

  predicate IsAggressivePair(p: Pair) {
    IsAggressiveQuestion(p.question) && IsAggressiveAnswer(p.answer)
  }

  /** `extractQuestionsAggressively(html)` */
  function Aggressive(html: string): seq<Pair> {
    var h := FlattenLines(html);
    Filter(Map(SpanTexts(h, QuestionSpans(h, 0)), CleanPair), IsAggressivePair)
  }

  /** Every aggressive question is 16 to 199 long, a question, not noise, and
      free of `/`, `http`, `www`, `gtag`, `script`, `com/` and `.js`; every
      answer is longer than 50 and not noise; and each question is the
      cleaned text of a `?`-terminated sentence of the flattened page, with
      the cleaned text after that same sentence as its answer. */
  lemma AggressiveSpec(html: string)
    ensures var h := FlattenLines(html);
      forall p :: p in Aggressive(html) ==>
        && IsAggressiveQuestion(p.question) && IsAggressiveAnswer(p.answer)
        && exists sp :: sp in QuestionSpans(h, 0) && p.question == Clean(JsSlice(h, sp.start, sp.end))
             && p.answer == Clean(AggressiveAnswerRaw(h, sp.end))
  {
    var h := FlattenLines(html);
    var spans := QuestionSpans(h, 0);
    var texts := SpanTexts(h, spans);
    MapFilterSpec(texts, CleanPair, IsAggressivePair);
    forall p | p in Aggressive(html)
      ensures exists sp ::
        sp in spans && p.question == Clean(JsSlice(h, sp.start, sp.end)) && p.answer == Clean(AggressiveAnswerRaw(h, sp.end))
    {
      var i :| 0 <= i < |texts| && p == CleanPair(texts[i]);
      assert spans[i] in spans;
    }
  }

  /** The aggressive pairs come one per surviving `?` sentence, in page
      order: the `k`-th pair is the cleaned sentence `idx[k]` with the
      cleaned text after it, and every sentence whose pair passes the
      filters gives a pair. */
  lemma AggressiveOrder(html: string)
    ensures var h := FlattenLines(html);
      var spans := QuestionSpans(h, 0);
      var r := Aggressive(html);
      exists idx: seq<nat> ::
        && |idx| == |r| && Increasing(idx)
        && (forall k :: 0 <= k < |idx| ==>
              && idx[k] < |spans|
              && r[k].question == Clean(JsSlice(h, spans[idx[k]].start, spans[idx[k]].end))
              && r[k].answer == Clean(AggressiveAnswerRaw(h, spans[idx[k]].end)))
        && (forall i :: 0 <= i < |spans| && IsAggressivePair(AggressiveCandidate(h, spans[i])) ==> i in idx)
  {
    var idx := AggressiveSpansOrder(FlattenLines(html), QuestionSpans(FlattenLines(html), 0));
  }

  /** The cleaned question of a sentence with the cleaned text after it. */
  function AggressiveCandidate(h: string, sp: Span): Pair {
    Pair(Clean(JsSlice(h, sp.start, sp.end)), Clean(AggressiveAnswerRaw(h, sp.end)))
  }

  /** The pairs kept from the sentences `spans` of the page `h`, with the
      positions of the sentences they come from. */
  lemma AggressiveSpansOrder(h: string, spans: seq<Span>) returns (idx: seq<nat>)
    ensures var r := Filter(Map(SpanTexts(h, spans), CleanPair), IsAggressivePair);
      && |idx| == |r| && Increasing(idx)
      && (forall k :: 0 <= k < |idx| ==>
            && idx[k] < |spans|
            && r[k].question == Clean(JsSlice(h, spans[idx[k]].start, spans[idx[k]].end))
            && r[k].answer == Clean(AggressiveAnswerRaw(h, spans[idx[k]].end)))
      && (forall i :: 0 <= i < |spans| && IsAggressivePair(AggressiveCandidate(h, spans[i])) ==> i in idx)
  {
    var texts := SpanTexts(h, spans);
    idx := MapFilterOrder(texts, CleanPair, IsAggressivePair);
    forall i | 0 <= i < |spans| && IsAggressivePair(AggressiveCandidate(h, spans[i]))
      ensures i in idx
    {
      assert CleanPair(texts[i]) == AggressiveCandidate(h, spans[i]);
    }
  }

  /** `extractQuestionsAggressively`: try every `?`-terminated sentence.
      The source looks for the answer only once the question has passed;
      both texts are pure functions of the page, so computing them together
      gives the same pairs. */
  method ExtractQuestionsAggressively(html: string) returns (pairs: seq<Pair>)
    ensures pairs == Aggressive(html)
  {
    var h := FlattenLines(html);
    var spans := QuestionSpans(h, 0);
    pairs := MapFilter(SpanTexts(h, spans), CleanPair, IsAggressivePair);
  }

  // ---------------------------------------------------------------------
  // extractFaqPatterns

  predicate IsPatternPair(p: Pair) {
    |p.question| > 10 && |p.answer| > 30 && !IsNoise(p.question) && !IsNoise(p.answer)
  }

  /** The pairs pushed for the matches of one pattern, given the two capture
      groups of each match. */
  function PatternPairs(ms: seq<RawPair>): seq<Pair> {
    Filter(Map(ms, CleanPair), IsPatternPair)
  }

  /** The pairs pushed for the matches of the first `n` patterns, pattern
      after pattern. */
  function LabelPairs(mss: seq<seq<RawPair>>, n: nat): seq<Pair>
    requires n <= |mss|
  {
    if n == 0 then [] else LabelPairs(mss, n - 1) + PatternPairs(mss[n - 1])
  }

  /** `extractFaqPatterns(html)`, given the matches of each pattern. */
  function Patterns(mss: seq<seq<RawPair>>): seq<Pair> {
    LabelPairs(mss, |mss|)
  }

  /** Every pattern pair has a question longer than 10 and an answer longer
      than 30, neither of them noise. */
  lemma {:induction false} LabelPairsSound(mss: seq<seq<RawPair>>, n: nat)
    requires n <= |mss|
    ensures forall p :: p in LabelPairs(mss, n) ==> IsPatternPair(p)
  {
    if n > 0 {
      LabelPairsSound(mss, n - 1);
      MapFilterSpec(mss[n - 1], CleanPair, IsPatternPair);
    }
  }

  /** `extractFaqPatterns`, given the matches of each pattern in turn. */
  method ExtractFaqPatterns(matches: seq<seq<RawPair>>) returns (pairs: seq<Pair>)
    ensures pairs == Patterns(matches)
  {
    pairs := [];
    var p := 0;
    while p < |matches|
      invariant p <= |matches|
      invariant pairs == LabelPairs(matches, p)
    {
      var found := MapFilter(matches[p], CleanPair, IsPatternPair);
      pairs := pairs + found;
      p := p + 1;
    }
  }
  // ---------------------------------------------------------------------
  // JSON-LD

  /** What one parse result adds: an array's elements, any other value
      itself, nothing for a failed parse. */
  function Spread(parsed: Option<Json>): seq<Json> {
    match parsed
    case None => []
    case Some(JArr(items)) => items
    case Some(v) => [v]
  }

  /** The values `extractJsonLd` collects from the parse results of the
      first `n` script blocks (None: `JSON.parse` threw): arrays are spread,
      failures skipped. */
  function JsonLdValues(parsed: seq<Option<Json>>, n: nat): (r: seq<Json>)
    requires n <= |parsed|
    ensures forall k :: 0 <= k < n && parsed[k].Some? && !parsed[k].value.JArr? ==> parsed[k].value in r
    ensures forall k, v :: 0 <= k < n && parsed[k].Some? && parsed[k].value.JArr? && v in parsed[k].value.items ==> v in r
    ensures forall v :: v in r ==>
      exists k :: 0 <= k < n && parsed[k].Some? &&
        (parsed[k].value == v || (parsed[k].value.JArr? && v in parsed[k].value.items))
  {
    if n == 0 then [] else JsonLdValues(parsed, n - 1) + Spread(parsed[n - 1])
  }

  /** `extractJsonLd` */
  method ExtractJsonLd(parsed: seq<Option<Json>>) returns (out: seq<Json>)
    ensures out == JsonLdValues(parsed, |parsed|)
  {
    out := [];
    var k := 0;
    while k < |parsed|
      invariant k <= |parsed|
      invariant out == JsonLdValues(parsed, k)
    {
      match parsed[k] {
        case None =>
        case Some(val) =>
          if val.JArr? {
            out := out + val.items;
          } else {
            out := out + [val];
          }
      }
      k := k + 1;
    }
  }

  /** `block && typeof block === "object" && block["@type"] === "FAQPage"` */
  predicate IsFaqPage(block: Json) {
    Get(Some(block), "@type") == Some(JStr("FAQPage"))
  }

  /** The elements `for (const q of (v || []))` visits; None when `v` is
      truthy but not iterable, where the loop throws a TypeError. */
  function Iterated(v: Option<Json>): Option<seq<Json>> {
    if !Truthy(v) then Some([])
    else match v.value
      case JArr(items) => Some(items)
      case JStr(s) => Some(seq(|s|, k requires 0 <= k < |s| => JStr([s[k]])))
      case _ => None
  }

  /** `x || ""` followed by `.toString().trim()` */
  function TextOf(v: Option<Json>): string {
    Trim(if Truthy(v) then ToText(v.value) else "")
  }

  /** `((q?.name ?? q?.["@name"]) || "").toString().trim()` */
  function QuestionText(q: Json): string {
    TextOf(Coalesce(Get(Some(q), "name"), Get(Some(q), "@name")))
  }

  /** `(q?.acceptedAnswer?.text || "").toString().trim()` */
  function AnswerText(q: Json): string {
    TextOf(Get(Get(Some(q), "acceptedAnswer"), "text"))
  }

  predicate IsFaqEntry(p: Pair) {
    IsQuestion(p.question) && p.answer != "" && !IsNoise(p.question) && !IsNoise(p.answer)
  }

  /** An entity's question and answer text. */
  function EntityPair(q: Json): Pair {
    Pair(QuestionText(q), AnswerText(q))
  }

  /** The pairs pushed for the entities of one FAQPage block. */
  function EntityPairs(es: seq<Json>): seq<Pair> {
    Filter(Map(es, EntityPair), IsFaqEntry)
  }

  /** The FAQPage loop of `extractFaqPairs` over the first `n` JSON-LD
      values; None when it throws. */
  function FaqPagePairs(blocks: seq<Json>, n: nat): Option<seq<Pair>>
    requires n <= |blocks|
  {
    if n == 0 then Some([])
    else match FaqPagePairs(blocks, n - 1)
      case None => None
      case Some(prev) =>
        var b := blocks[n - 1];
        if !IsFaqPage(b) then Some(prev)
        else match Iterated(Get(Some(b), "mainEntity"))
          case None => None
          case Some(es) => Some(prev + EntityPairs(es))
  }

  /** Every pair read from FAQPage entities is a question with a non-empty
      answer, neither of them noise. */
  lemma {:induction false} FaqPagePairsSound(blocks: seq<Json>, n: nat)
    requires n <= |blocks|
    ensures var r := FaqPagePairs(blocks, n);
      r.Some? ==> forall p :: p in r.value ==> IsFaqEntry(p)
  {
    if n > 0 {
      FaqPagePairsSound(blocks, n - 1);
      var b := blocks[n - 1];
      var es := Iterated(Get(Some(b), "mainEntity"));
      if IsFaqPage(b) && es.Some? {
        FilterPasses(Map(es.value, EntityPair), IsFaqEntry);
      }
    }
  }

  /** Once the FAQPage loop has thrown, it has thrown for every longer prefix. */
  lemma {:induction false} FaqPagePairsStaysNone(blocks: seq<Json>, k: nat)
    requires k <= |blocks| && FaqPagePairs(blocks, k) == None
    ensures FaqPagePairs(blocks, |blocks|) == None
    decreases |blocks| - k
  {
    if k < |blocks| {
      FaqPagePairsStaysNone(blocks, k + 1);
    }
  }

  /** The FAQPage loop over the JSON-LD values. */
  method ReadFaqPages(blocks: seq<Json>) returns (out: Option<seq<Pair>>)
    ensures out == FaqPagePairs(blocks, |blocks|)
  {
    var acc: seq<Pair> := [];
    var k := 0;
    while k < |blocks|
      invariant k <= |blocks|
      invariant FaqPagePairs(blocks, k) == Some(acc)
    {
      var block := blocks[k];
      if IsFaqPage(block) {
        var entities := Iterated(Get(Some(block), "mainEntity"));
        if entities.None? {
          FaqPagePairsStaysNone(blocks, k + 1);
          return None;
        }
        var found := MapFilter(entities.value, EntityPair, IsFaqEntry);
        acc := acc + found;
      }
      k := k + 1;
    }
    out := Some(acc);
  }

  // ---------------------------------------------------------------------
  // Deduplication

  /** The key the orchestrator deduplicates on: `question.toLowerCase()`. */
  function Key(p: Pair): string {
    Lower(p.question)
  }

  /** `s.findIndex(p => key(p) === key)` from index `from` on. */
  function FindIndexByKey(s: seq<Pair>, key: string, from: nat): (r: int)
    requires from <= |s|
    ensures r == -1 || (from <= r < |s| && Key(s[r]) == key)
    ensures forall j :: from <= j < |s| && (r == -1 || j < r) ==> Key(s[j]) != key
    decreases |s| - from
  {
    if from == |s| then -1
    else if Key(s[from]) == key then from
    else FindIndexByKey(s, key, from + 1)
  }

  /** No earlier pair has the key of pair `i`. */
  predicate FirstOfKey(s: seq<Pair>, i: nat)
    requires i < |s|
  {
    forall j :: 0 <= j < i ==> Key(s[j]) != Key(s[i])
  }

  lemma FindIndexIsFirst(s: seq<Pair>, i: nat)
    requires i < |s|
    ensures FindIndexByKey(s, Key(s[i]), 0) == i <==> FirstOfKey(s, i)
  {}

  /** Two pairs that both come first for their keys and share a key are the same pair. */
  lemma FirstOfKeyUnique(s: seq<Pair>, i: nat, j: nat)
    requires i < |s| && j < |s| && FirstOfKey(s, i) && FirstOfKey(s, j)
    requires Key(s[i]) == Key(s[j])
    ensures i == j
  {}

  /** The filter `index === self.findIndex(...)` over the first `n` pairs. */
  function DedupeUpTo(s: seq<Pair>, n: nat): seq<Pair>
    requires n <= |s|
  {
    if n == 0 then []
    else DedupeUpTo(s, n - 1) + (if FindIndexByKey(s, Key(s[n - 1]), 0) == n - 1 then [s[n - 1]] else [])
  }

  /** The positions of the pairs the filter keeps among the first `n`. */
  ghost function DedupeIndexes(s: seq<Pair>, n: nat): seq<nat>
    requires n <= |s|
  {
    if n == 0 then []
    else DedupeIndexes(s, n - 1) + (if FirstOfKey(s, n - 1) then [n - 1] else [])
  }

  /** The kept positions are increasing, and each is the first of its key. */
  lemma {:induction false} DedupeIndexesFirst(s: seq<Pair>, n: nat)
    requires n <= |s|
    ensures var idx := DedupeIndexes(s, n);
      && Increasing(idx)
      && (forall k :: 0 <= k < |idx| ==> idx[k] < n && FirstOfKey(s, idx[k]))
  {
    if n > 0 {
      DedupeIndexesFirst(s, n - 1);
      var pidx := DedupeIndexes(s, n - 1);
      if FirstOfKey(s, n - 1) {
        assert DedupeIndexes(s, n) == pidx + [n - 1];
        IncreasingSnoc(pidx, n - 1);
      }
    }
  }

  /** The filter keeps the pairs at the kept positions. */
  lemma {:induction false} DedupeIndexesPick(s: seq<Pair>, n: nat)
    requires n <= |s|
    ensures var idx := DedupeIndexes(s, n);
      var r := DedupeUpTo(s, n);
      |idx| == |r| && forall k :: 0 <= k < |idx| ==> idx[k] < |s| && r[k] == s[idx[k]]
  {
    if n > 0 {
      DedupeIndexesPick(s, n - 1);
      FindIndexIsFirst(s, n - 1);
      var prev := DedupeUpTo(s, n - 1);
      var pidx := DedupeIndexes(s, n - 1);
      if FirstOfKey(s, n - 1) {
        assert DedupeUpTo(s, n) == prev + [s[n - 1]];
        assert DedupeIndexes(s, n) == pidx + [n - 1];
      } else {
        assert DedupeUpTo(s, n) == prev;
        assert DedupeIndexes(s, n) == pidx;
      }
    }
  }

  /** The filter keeps exactly the first pair of each key, in order. */
  lemma DedupeIndexesSpec(s: seq<Pair>, n: nat)
    requires n <= |s|
    ensures var idx := DedupeIndexes(s, n);
      var r := DedupeUpTo(s, n);
      && |idx| == |r| && Increasing(idx)
      && (forall k :: 0 <= k < |idx| ==> idx[k] < n && FirstOfKey(s, idx[k]))
      && (forall k :: 0 <= k < |idx| ==> r[k] == s[idx[k]])
  {
    DedupeIndexesFirst(s, n);
    DedupeIndexesPick(s, n);
  }

  /** No two pairs of `r` share a key. */
  predicate DistinctKeys(r: seq<Pair>) {
    forall k, l :: 0 <= k < l < |r| ==> Key(r[k]) != Key(r[l])
  }

  lemma DedupeDistinct(s: seq<Pair>, n: nat)
    requires n <= |s|
    ensures DistinctKeys(DedupeUpTo(s, n))
  {
    DedupeIndexesSpec(s, n);
    var r := DedupeUpTo(s, n);
    var idx := DedupeIndexes(s, n);
    forall k, l | 0 <= k < l < |r| ensures Key(r[k]) != Key(r[l]) {
      assert idx[k] < idx[l] && FirstOfKey(s, idx[l]);
    }
  }

  /** Some pair of `r` has key `key`. */
  predicate HasKey(r: seq<Pair>, key: string) {
    exists k :: 0 <= k < |r| && Key(r[k]) == key
  }

  /** Every key of `s` is the key of some pair of `r`. */
  predicate HasKeysOf(r: seq<Pair>, s: seq<Pair>) {
    forall i :: 0 <= i < |s| ==> HasKey(r, Key(s[i]))
  }

  lemma {:induction false} DedupeCovers(s: seq<Pair>, n: nat)
    requires n <= |s|
    ensures forall i :: 0 <= i < n ==> HasKey(DedupeUpTo(s, n), Key(s[i]))
  {
    if n > 0 {
      DedupeCovers(s, n - 1);
      FindIndexIsFirst(s, n - 1);
      var prev := DedupeUpTo(s, n - 1);
      var r := DedupeUpTo(s, n);
      assert r == prev + (if FirstOfKey(s, n - 1) then [s[n - 1]] else []);
      forall i | 0 <= i < n ensures HasKey(r, Key(s[i])) {
        var j := i;
        if i == n - 1 && !FirstOfKey(s, n - 1) {
          j :| 0 <= j < n - 1 && Key(s[j]) == Key(s[n - 1]);
        }
        if j < n - 1 {
          assert HasKey(prev, Key(s[j]));
          var k :| 0 <= k < |prev| && Key(prev[k]) == Key(s[j]);
          assert r[k] == prev[k];
        } else {
          assert r[|prev|] == s[i];
        }
      }
    }
  }

  /** `allPairs.filter((pair, index, self) => index === self.findIndex(...))` */
  function Dedupe(s: seq<Pair>): seq<Pair> {
    DedupeUpTo(s, |s|)
  }

  lemma {:induction false} IncreasingBound(idx: seq<nat>, n: nat)
    requires Increasing(idx) && forall k :: 0 <= k < |idx| ==> idx[k] < n
    ensures |idx| <= n
    decreases n
  {
    if idx != [] {
      var last := idx[|idx| - 1];
      assert forall k :: 0 <= k < |idx| - 1 ==> idx[k] < last;
      IncreasingBound(idx[..|idx| - 1], last);
    }
  }

  /** The pairs kept are pairs of the input. */
  lemma DedupeKeepsOnlyInput(s: seq<Pair>)
    ensures forall p :: p in Dedupe(s) ==> p in s
  {
    var r := Dedupe(s);
    var idx := DedupeIndexes(s, |s|);
    DedupeIndexesSpec(s, |s|);
    forall p | p in r ensures p in s {
      var k :| 0 <= k < |r| && r[k] == p;
      assert r[k] == s[idx[k]];
    }
  }

  /** The first pair of every key is kept. */
  lemma DedupeKeepsFirsts(s: seq<Pair>)
    ensures forall i :: 0 <= i < |s| && FirstOfKey(s, i) ==> s[i] in Dedupe(s)
  {
    var r := Dedupe(s);
    var idx := DedupeIndexes(s, |s|);
    DedupeIndexesSpec(s, |s|);
    DedupeCovers(s, |s|);
    forall i | 0 <= i < |s| && FirstOfKey(s, i) ensures s[i] in r {
      assert HasKey(r, Key(s[i]));
      var k :| 0 <= k < |r| && Key(r[k]) == Key(s[i]);
      FirstOfKeyUnique(s, idx[k], i);
      assert r[k] == s[i];
    }
  }

  /** Deduplication keeps one pair per key: no two share a key, every key of
      the input is present, nothing is added and the result is empty only
      for an empty input. */
  lemma DedupeSpec(s: seq<Pair>)
    ensures |Dedupe(s)| <= |s|
    ensures DistinctKeys(Dedupe(s))
    ensures HasKeysOf(Dedupe(s), s)
    ensures Dedupe(s) == [] <==> s == []
  {
    DedupeIndexesSpec(s, |s|);
    IncreasingBound(DedupeIndexes(s, |s|), |s|);
    DedupeDistinct(s, |s|);
    DedupeCovers(s, |s|);
    if s != [] {
      assert HasKey(Dedupe(s), Key(s[0]));
    }
  }

  // ---------------------------------------------------------------------
  // extractFaqPairs

  const MaxPairs: nat := 12

  /** `uniquePairs.slice(0, 12)` */
  function Top(unique: seq<Pair>): (r: seq<Pair>)
    ensures |r| <= MaxPairs
  {
    unique[..Min(MaxPairs, |unique|)]
  }

  /** The merged result is a prefix of the deduplicated pairs, at most 12
      long, with distinct keys, drawn from the input and non-empty whenever
      the input is. */
  lemma TopOfDedupe(all: seq<Pair>)
    ensures var r := Top(Dedupe(all));
      && r == Dedupe(all)[..|r|]
      && |r| == Min(MaxPairs, |Dedupe(all)|)
      && DistinctKeys(r)
      && (forall p :: p in r ==> p in all)
      && (r == [] <==> all == [])
  {
    var unique := Dedupe(all);
    DedupeSpec(all);
    DedupeKeepsOnlyInput(all);
    var r := Top(unique);
    assert forall p :: p in r ==> p in unique;
    assert forall k, l :: 0 <= k < l < |r| ==> r[k] == unique[k] && r[l] == unique[l];
  }

  /** What the regular expressions find in one string: the heading matches
      (for `extractBlocksLoosely`) and the matches of each label pattern (for
      `extractFaqPatterns`), both in the string with its line breaks flattened. */
  datatype Scan = Scan(headings: seq<HeadingMatch>, labels: seq<seq<RawPair>>)

  /** What the regular expressions find in a page: the parse result of each
      JSON-LD script block, the matches in the designonstock slice, and the
      heading matches in the whole page. */
  datatype PageScan = PageScan(jsonLd: seq<Option<Json>>, slice: Scan, page: seq<HeadingMatch>)

  /** The FAQPage pairs of a page's JSON-LD; None when the loop throws. */
  function JsonLdPairs(scan: PageScan): Option<seq<Pair>> {
    var values := JsonLdValues(scan.jsonLd, |scan.jsonLd|);
    FaqPagePairs(values, |values|)
  }

  /** `[...loose, ...aggressive, ...patterns]` over the slice. */
  function Heuristics(slice: string, scan: Scan): seq<Pair> {
    LooseBlocks(slice, scan.headings) + Aggressive(slice) + Patterns(scan.labels)
  }

  /** `extractFaqPairs`; None when the FAQPage loop throws. */
  function FaqPairs(html: string, scan: PageScan): Option<seq<Pair>> {
    match JsonLdPairs(scan)
    case None => None
    case Some(out) =>
      if out != [] then Some(out)
      else
        var unique := Dedupe(Heuristics(SliceDosFaq(html), scan.slice));
        if unique != [] then Some(Top(unique))
        else Some(LooseBlocks(html, scan.page))
  }

  /** JSON-LD is the authority: the result fails exactly when the FAQPage
      loop throws, and FAQPage pairs, when there are any, are the result as
      they are; each of them is a question with a non-empty answer. */
  lemma FaqPairsJsonLd(html: string, scan: PageScan)
    ensures var ld := JsonLdPairs(scan);
      && (FaqPairs(html, scan).None? <==> ld.None?)
      && (ld.Some? && ld.value != [] ==> FaqPairs(html, scan) == ld)
      && (ld.Some? && ld.value != [] ==>
            forall p :: p in ld.value ==> IsFaqEntry(p))
  {
    var values := JsonLdValues(scan.jsonLd, |scan.jsonLd|);
    FaqPagePairsSound(values, |values|);
  }

  /** Without FAQPage pairs, the heuristic pairs of the slice, merged: the
      first 12 of the deduplicated list (all of it when shorter), no two with
      the same lower-cased question, each one a heuristic pair and the first
      of its key, in the order of the merged list. */
  lemma FaqPairsMerged(html: string, scan: PageScan, all: seq<Pair>)
    requires JsonLdPairs(scan) == Some([])
    requires all == Heuristics(SliceDosFaq(html), scan.slice) && all != []
    ensures FaqPairs(html, scan).Some?
    ensures var r := FaqPairs(html, scan).value;
      && 0 < |r| <= MaxPairs
      && |r| == Min(MaxPairs, |Dedupe(all)|)
      && DistinctKeys(r)
      && (forall p :: p in r ==> p in all)
      && r <= Dedupe(all)
  {
    TopOfDedupe(all);
  }

  /** When no heuristic finds anything in the slice, the loose extractor is
      run over the whole page. */
  lemma FaqPairsFallback(html: string, scan: PageScan)
    requires JsonLdPairs(scan) == Some([])
    requires Heuristics(SliceDosFaq(html), scan.slice) == []
    ensures FaqPairs(html, scan) == Some(LooseBlocks(html, scan.page))
  {
    DedupeSpec(Heuristics(SliceDosFaq(html), scan.slice));
  }

  /** `extractFaqPairs(html)`: JSON-LD first, then the merged heuristics over
      the slice, then the loose extractor over the whole page. */
  method ExtractFaqPairs(html: string, scan: PageScan) returns (r: Option<seq<Pair>>)
    ensures r == FaqPairs(html, scan)
  {
    var values := ExtractJsonLd(scan.jsonLd);
    var out := ReadFaqPages(values);
    if out.None? {
      return None;
    }
    if |out.value| > 0 {
      return out;
    }
    var slice := SliceDosFaq(html);
    var loose := ExtractBlocksLoosely(slice, scan.slice.headings);
    var aggressive := ExtractQuestionsAggressively(slice);
    var patterns := ExtractFaqPatterns(scan.slice.labels);
    var allPairs := loose + aggressive + patterns;
    var uniquePairs := Dedupe(allPairs);
    if |uniquePairs| > 0 {
      return Some(Top(uniquePairs));
    }
    var last := ExtractBlocksLoosely(html, scan.page);
    return Some(last);
  }
}

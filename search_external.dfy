/** The external search endpoint: the query is checked, the site's search
    page is fetched, and its title links and descriptions are assembled
    into at most five results, with a single fallback result pointing at
    the site's own search page when nothing usable is found. */
module SearchExternal {
  import opened Strings
  import opened JsonValue
  import opened FaqExtract

  // ---------------------------------------------------------------------
  // encodeURIComponent

  /** The characters `encodeURIComponent` leaves as they are. */
  predicate Unreserved(c: char) {
    ('A' <= c <= 'Z') || ('a' <= c <= 'z') || ('0' <= c <= '9')
    || c == '-' || c == '_' || c == '.' || c == '!' || c == '~'
    || c == '*' || c == '\'' || c == '(' || c == ')'
  }

  const HexDigits := "0123456789ABCDEF"

  /** `%XX` for one byte, in upper-case hexadecimal. */
  function PercentByte(b: nat): (r: string)
    requires b < 256
    ensures |r| == 3 && r[0] == '%' && r[1] in HexDigits && r[2] in HexDigits
  {
    ['%', HexDigits[b / 16], HexDigits[b % 16]]
  }

  /** The UTF-8 encoding of a code point. */
  function Utf8(n: nat): (r: seq<nat>)
    requires n < 0x11_0000
    ensures 1 <= |r| <= 4
    ensures forall k :: 0 <= k < |r| ==> r[k] < 256
    ensures (|r| == 1 <==> n < 0x80) && (|r| == 1 ==> r[0] == n)
    ensures |r| > 1 ==> 0xC0 <= r[0] && forall k :: 1 <= k < |r| ==> 0x80 <= r[k] < 0xC0
  {
    if n < 0x80 then [n]
    else if n < 0x800 then [0xC0 + n / 0x40, 0x80 + n % 0x40]
    else if n < 0x1_0000 then [0xE0 + n / 0x1000, 0x80 + n / 0x40 % 0x40, 0x80 + n % 0x40]
    else [0xF0 + n / 0x4_0000, 0x80 + n / 0x1000 % 0x40, 0x80 + n / 0x40 % 0x40, 0x80 + n % 0x40]
  }

  /** The percent-encoding of every byte in `bs`. */
  function PercentBytes(bs: seq<nat>): (r: string)
    requires forall k :: 0 <= k < |bs| ==> bs[k] < 256
    ensures |r| == 3 * |bs|
    ensures forall k :: 0 <= k < |r| ==> r[k] == '%' || r[k] in HexDigits
  {
    if bs == [] then [] else PercentByte(bs[0]) + PercentBytes(bs[1..])
  }

  /** The value of an upper-case hexadecimal digit. */
  function HexValue(c: char): nat {
    if '0' <= c <= '9' then c as nat - '0' as nat
    else if 'A' <= c <= 'F' then c as nat - 'A' as nat + 10
    else 0
  }

  /** Each digit's value is its place in `HexDigits`. */
  lemma HexDigitsValues()
    ensures forall i :: 0 <= i < 16 ==> HexValue(HexDigits[i]) == i
  {
    forall i | 0 <= i < 16 ensures HexValue(HexDigits[i]) == i {
      if i < 10 {
        assert HexDigits[i] as nat == '0' as nat + i;
      } else {
        assert HexDigits[i] as nat == 'A' as nat + i - 10;
      }
    }
  }

  /** `%XX` read back as a byte. */
  lemma PercentByteDecodes(b: nat)
    requires b < 256
    ensures 16 * HexValue(PercentByte(b)[1]) + HexValue(PercentByte(b)[2]) == b
  {
    HexDigitsValues();
  }

  /** Reads back a sequence of `%XX` groups as bytes. */
  function DecodePercent(s: string): (r: seq<nat>)
    ensures |r| == |s| / 3
  {
    if |s| < 3 then [] else [16 * HexValue(s[1]) + HexValue(s[2])] + DecodePercent(s[3..])
  }

  /** Percent-encoding loses nothing: decoding gives the bytes back. */
  lemma {:induction false} PercentBytesDecode(bs: seq<nat>)
    requires forall k :: 0 <= k < |bs| ==> bs[k] < 256
    ensures DecodePercent(PercentBytes(bs)) == bs
  {
    if bs != [] {
      var head := PercentByte(bs[0]);
      var rest := PercentBytes(bs[1..]);
      PercentBytesDecode(bs[1..]);
      PercentByteDecodes(bs[0]);
      DecodeGroup(head, rest);
      assert bs == [bs[0]] + bs[1..];
    }
  }

  /** Decoding reads the first group of three and then the rest. */
  lemma DecodeGroup(head: string, rest: string)
    requires |head| == 3
    ensures DecodePercent(head + rest) == [16 * HexValue(head[1]) + HexValue(head[2])] + DecodePercent(rest)
  {
    assert (head + rest)[3..] == rest;
  }

  /** Reads back the code point of a UTF-8 sequence of one to four bytes. */
  function Utf8Decode(bs: seq<nat>): int {
    if |bs| == 1 then bs[0]
    else if |bs| == 2 then (bs[0] as int - 0xC0) * 0x40 + (bs[1] as int - 0x80)
    else if |bs| == 3 then (bs[0] as int - 0xE0) * 0x1000 + (bs[1] as int - 0x80) * 0x40 + (bs[2] as int - 0x80)
    else if |bs| == 4 then
      (bs[0] as int - 0xF0) * 0x4_0000 + (bs[1] as int - 0x80) * 0x1000
        + (bs[2] as int - 0x80) * 0x40 + (bs[3] as int - 0x80)
    else 0
  }

  /** UTF-8 loses nothing: decoding gives the code point back. */
  lemma Utf8Decodes(n: nat)
    requires n < 0x11_0000
    ensures Utf8Decode(Utf8(n)) == n
  {
    if n < 0x80 {
    } else if n < 0x800 {
      assert n == n / 0x40 * 0x40 + n % 0x40;
    } else if n < 0x1_0000 {
      Utf8Three(n);
    } else {
      Utf8Four(n);
    }
  }

  lemma Utf8Three(n: nat)
    requires 0x800 <= n < 0x1_0000
    ensures Utf8Decode(Utf8(n)) == n
  {
    var a, b, c := n / 0x1000, n / 0x40 % 0x40, n % 0x40;
    assert n / 0x40 == a * 0x40 + b;
    assert n == n / 0x40 * 0x40 + c;
    assert Utf8(n) == [0xE0 + a, 0x80 + b, 0x80 + c];
  }

  lemma Utf8Four(n: nat)
    requires 0x1_0000 <= n < 0x11_0000
    ensures Utf8Decode(Utf8(n)) == n
  {
    var a, b, c, d := n / 0x4_0000, n / 0x1000 % 0x40, n / 0x40 % 0x40, n % 0x40;
    assert n / 0x1000 == a * 0x40 + b;
    assert n / 0x40 == n / 0x1000 * 0x40 + c;
    assert n == n / 0x40 * 0x40 + d;
    assert Utf8(n) == [0xF0 + a, 0x80 + b, 0x80 + c, 0x80 + d];
  }

  /** One character as `encodeURIComponent` writes it. */
  function EncodeChar(c: char): (r: string)
    ensures forall k :: 0 <= k < |r| ==> Unreserved(r[k]) || r[k] == '%'
    ensures Unreserved(c) ==> r == [c]
    ensures !Unreserved(c) ==> 3 <= |r| <= 12 && r[0] == '%'
  {
    if Unreserved(c) then [c] else PercentBytes(Utf8(c as nat))
  }

  /** An escaped character is read back by percent-decoding and then
      UTF-8 decoding. */
  lemma EncodeCharDecodes(c: char)
    requires !Unreserved(c)
    ensures Utf8Decode(DecodePercent(EncodeChar(c))) == c as nat
  {
    PercentBytesDecode(Utf8(c as nat));
    Utf8Decodes(c as nat);
  }

  /** `encodeURIComponent(s)`: unreserved characters are kept, every other
      character becomes the percent-encoding of its UTF-8 bytes. Only
      unreserved characters and `%` occur in the result, so it is safe as
      a query parameter value, and a text of unreserved characters is kept
      as it is. */
  function EncodeURIComponent(s: string): (r: string)
    ensures forall k :: 0 <= k < |r| ==> Unreserved(r[k]) || r[k] == '%'
    ensures (forall k :: 0 <= k < |s| ==> Unreserved(s[k])) ==> r == s
  {
    if s == [] then []
    else
      var head := EncodeChar(s[0]);
      var tail := EncodeURIComponent(s[1..]);
      assert forall k :: 0 <= k < |s| - 1 ==> s[1..][k] == s[k + 1];
      head + tail
  }

  // ---------------------------------------------------------------------
  // The query guard

  /** The response of the `POST` handler. */
  datatype SearchResponse =
    | SearchFailed(status: nat, error: string)
    | SearchDone(query: string, results: seq<SearchResult>, searchUrl: string, fallback: bool)

  datatype SearchResult = SearchResult(title: string, description: string, url: string, isFallback: bool)

  /** What the guard decides: the handler stops with a response, or goes
      on with the query text. */
  datatype Guard = Stop(response: SearchResponse) | Proceed(query: string)

  const QueryRequired := "Query is required"
  const SearchFailedText := "Failed to search external website"

  /** The query of a parsed body (`None`: the body is not JSON): the
      handler fails with 500 when reading the body throws, with 400 when
      the query is missing, falsy or not a string, and otherwise goes on
      with the query text. */
  function QueryGuard(body: Option<Json>): (r: Guard)
    ensures r.Stop? ==> r.response == SearchFailed(500, SearchFailedText) || r.response == SearchFailed(400, QueryRequired)
    ensures r == Stop(SearchFailed(500, SearchFailedText)) <==> body.None? || body == Some(JNull)
    ensures r.Proceed? <==>
      && body.Some? && body != Some(JNull)
      && Get(body, "query").Some? && Get(body, "query").value.JStr?
      && Get(body, "query").value.s != ""
    ensures r.Proceed? ==> Get(body, "query") == Some(JStr(r.query))
  {
    if body.None? || body == Some(JNull) then Stop(SearchFailed(500, SearchFailedText))
    else
      var query := Get(body, "query");
      if !Truthy(query) || !query.value.JStr? then Stop(SearchFailed(400, QueryRequired))
      else Proceed(query.value.s)
  }

  // ---------------------------------------------------------------------
  // parseSearchResults

  const Site := "https://www.designonstock.com"

  /** The site's own search page for the query. */
  function SearchUrl(query: string): (r: string)
    ensures StartsWith(r, "http")
  {
    Site + "/search?q=" + EncodeURIComponent(query)
  }

  /** A link's address: an `http...` href as it is, any other href on the
      site. Either way the address starts with `http`. */
  function FullUrl(href: string): (r: string)
    ensures StartsWith(r, "http")
    ensures StartsWith(href, "http") ==> r == href
    ensures !StartsWith(href, "http") ==> r == Site + href
  {
    if StartsWith(href, "http") then href else Site + href
  }

  /** `s.replace(/<[^>]*>/g, '')`: scanning left to right, each `<` with a
      `>` after it is dropped up to and including the first such `>`;
      every other character is kept. */
  function RemoveTags(s: string): string
    decreases |s|
  {
    if s == [] then ""
    else if s[0] == '<' && IndexOfChar(s, '>', 1) >= 0 then
      RemoveTags(s[IndexOfChar(s, '>', 1) + 1..])
    else
      [s[0]] + RemoveTags(s[1..])
  }

  /** No `<` has a `>` anywhere after it. */
  predicate NoClosedTag(r: string) {
    r == [] || ((r[0] == '<' ==> '>' !in r[1..]) && NoClosedTag(r[1..]))
  }

  /** `NoClosedTag` position by position. */
  lemma {:induction false} NoClosedTagAt(r: string)
    requires NoClosedTag(r)
    ensures forall k, l :: 0 <= k < l < |r| && r[k] == '<' ==> r[l] != '>'
  {
    if r != [] {
      NoClosedTagAt(r[1..]);
      forall k, l | 0 <= k < l < |r| && r[k] == '<' ensures r[l] != '>' {
        assert r[l] == r[1..][l - 1];
        if k == 0 {
          assert r[1..][l - 1] in r[1..];
        } else {
          assert r[k] == r[1..][k - 1];
        }
      }
    }
  }

  /** What is left has no `<` with a `>` after it: no match of `<[^>]*>`
      survives. */
  lemma {:induction false} RemoveTagsShape(s: string)
    ensures NoClosedTag(RemoveTags(s))
    decreases |s|, 1
  {
    if s != [] {
      if s[0] == '<' && IndexOfChar(s, '>', 1) >= 0 {
        SkippedTagNoClosedTag(s);
      } else {
        KeptCharNoClosedTag(s);
      }
    }
  }

  /** A leading tag is dropped and adds no closed tag. */
  lemma {:induction false} SkippedTagNoClosedTag(s: string)
    requires s != [] && s[0] == '<' && IndexOfChar(s, '>', 1) >= 0
    ensures NoClosedTag(RemoveTags(s))
    decreases |s|, 0
  {
    var c := IndexOfChar(s, '>', 1);
    RemoveTagsShape(s[c + 1..]);
    assert RemoveTags(s) == RemoveTags(s[c + 1..]);
  }

  /** A kept first character adds no closed tag. */
  lemma {:induction false} KeptCharNoClosedTag(s: string)
    requires s != [] && !(s[0] == '<' && IndexOfChar(s, '>', 1) >= 0)
    ensures NoClosedTag(RemoveTags(s))
    decreases |s|, 0
  {
    var rest := RemoveTags(s[1..]);
    RemoveTagsShape(s[1..]);
    assert RemoveTags(s) == [s[0]] + rest;
    assert ([s[0]] + rest)[1..] == rest;
    if s[0] == '<' {
      forall j | 0 <= j < |s| - 1 ensures s[1..][j] != '>' {
        assert s[1..][j] == s[j + 1];
      }
      RemoveTagsUnclosedRest(s[1..]);
    }
  }

  /** Text without a `<` is kept as it is. */
  lemma {:induction false} RemoveTagsKeeps(s: string)
    requires '<' !in s
    ensures RemoveTags(s) == s
    decreases |s|
  {
    if s != [] {
      assert s[0] in s;
      assert forall c :: c in s[1..] ==> c in s;
      RemoveTagsKeeps(s[1..]);
      assert s == [s[0]] + s[1..];
    }
  }

  /** The first tag, from the first `<` up to the first `>` after it, is
      dropped; the text before it is kept, and the rest loses its tags on
      its own. */
  lemma {:induction false} RemoveTagsStep(a: string, t: string, b: string)
    requires '<' !in a && '>' !in t
    ensures RemoveTags(a + "<" + t + ">" + b) == a + RemoveTags(b)
    decreases |a|
  {
    var x := a + "<" + t + ">" + b;
    if a == [] {
      assert x == "<" + t + ">" + b;
      forall j | 1 <= j < |t| + 1 ensures x[j] != '>' {
        assert x[j] == t[j - 1] && t[j - 1] in t;
      }
      assert x[|t| + 1] == '>';
      assert IndexOfChar(x, '>', 1) == |t| + 1;
      assert x[|t| + 2..] == b;
    } else {
      assert a[0] in a;
      assert forall c :: c in a[1..] ==> c in a;
      RemoveTagsStep(a[1..], t, b);
      assert x[0] == a[0];
      assert x[1..] == a[1..] + "<" + t + ">" + b;
      assert a == [a[0]] + a[1..];
    }
  }

  /** A first `<` with no `>` after it is kept, and so is the text after it. */
  lemma {:induction false} RemoveTagsUnclosed(a: string, b: string)
    requires '<' !in a && '>' !in b
    ensures RemoveTags(a + "<" + b) == a + "<" + b
    decreases |a|
  {
    var x := a + "<" + b;
    if a == [] {
      assert x == "<" + b;
      forall j | 1 <= j < |x| ensures x[j] != '>' {
        assert x[j] == b[j - 1] && b[j - 1] in b;
      }
      assert x[1..] == b;
      RemoveTagsUnclosedRest(b);
    } else {
      assert a[0] in a;
      assert forall c :: c in a[1..] ==> c in a;
      RemoveTagsUnclosed(a[1..], b);
      assert x[0] == a[0];
      assert x[1..] == a[1..] + "<" + b;
      assert a == [a[0]] + a[1..];
    }
  }

  /** Text without a `>` is kept as it is: none of its `<` is closed. */
  lemma {:induction false} RemoveTagsUnclosedRest(s: string)
    requires '>' !in s
    ensures RemoveTags(s) == s
    decreases |s|
  {
    if s != [] {
      forall j | 1 <= j < |s| ensures s[j] != '>' {
        assert s[j] in s;
      }
      assert forall c :: c in s[1..] ==> c in s;
      RemoveTagsUnclosedRest(s[1..]);
      assert s == [s[0]] + s[1..];
    }
  }

  /** The two captures of a title match: the href and the link text. */
  datatype TitleMatch = TitleMatch(href: string, text: string)

  datatype TitleLink = TitleLink(url: string, title: string)

  /** The candidate of one title match. */
  function TitleOf(m: TitleMatch): TitleLink {
    TitleLink(FullUrl(m.href), Trim(RemoveTags(m.text)))
  }

  /** `title && title.length > 10` */
  predicate IsKeptTitle(t: TitleLink) {
    t.title != "" && |t.title| > 10
  }

  /** The candidate of one description match. */
  function DescriptionOf(m: string): string {
    Trim(RemoveTags(m))
  }

  /** `description && description.length > 20` */
  predicate IsKeptDescription(d: string) {
    d != "" && |d| > 20
  }

  function Titles(ms: seq<TitleMatch>): seq<TitleLink> {
    Filter(Map(ms, TitleOf), IsKeptTitle)
  }

  function Descriptions(ms: seq<string>): seq<string> {
    Filter(Map(ms, DescriptionOf), IsKeptDescription)
  }

  /** The description used when result `i` has none of its own. */
  function DefaultDescription(query: string): string {
    "Relevante informatie over " + query + " op Design on Stock"
  }

  /** `descriptions[i] || default` */
  function DescriptionAt(descriptions: seq<string>, i: nat, query: string): string {
    if i < |descriptions| && descriptions[i] != "" then descriptions[i] else DefaultDescription(query)
  }

  /** The single result that sends the user to the site's search page. */
  function Fallback(query: string): SearchResult {
    SearchResult("Zoekresultaten voor \"" + query + "\"",
                 "Bekijk alle resultaten voor \"" + query + "\" op de Design on Stock website",
                 SearchUrl(query), true)
  }

  /** Result `i`: title `i` with description `i`, for the first five titles. */
  function Combined(titles: seq<TitleLink>, descriptions: seq<string>, query: string): (r: seq<SearchResult>)
    ensures |r| == Min(|titles|, 5)
  {
    seq(Min(|titles|, 5), k requires 0 <= k < Min(|titles|, 5) =>
      SearchResult(titles[k].title, DescriptionAt(descriptions, k, query), titles[k].url, false))
  }

  /** The results from the surviving titles and descriptions: the
      combined ones, or the fallback result when there are none. */
  function Assemble(titles: seq<TitleLink>, descriptions: seq<string>, query: string): seq<SearchResult> {
    var rs := Combined(titles, descriptions, query);
    if rs == [] then [Fallback(query)] else rs
  }

  /** `parseSearchResults(html, query)`, given the title matches and the
      description matches of the page. */
  function ParseSpec(titleMatches: seq<TitleMatch>, descriptionMatches: seq<string>, query: string): seq<SearchResult> {
    Assemble(Titles(titleMatches), Descriptions(descriptionMatches), query)
  }

  /** Every surviving title is the candidate of a title match, its text is
      longer than 10 and its address starts with `http`. */
  lemma TitlesSpec(ms: seq<TitleMatch>)
    ensures var ts := Titles(ms);
      forall k :: 0 <= k < |ts| ==>
        && |ts[k].title| > 10 && StartsWith(ts[k].url, "http")
        && exists i :: 0 <= i < |ms| && ts[k] == TitleOf(ms[i])
  {
    var ts := Titles(ms);
    MapFilterSpec(ms, TitleOf, IsKeptTitle);
    forall k | 0 <= k < |ts|
      ensures |ts[k].title| > 10 && StartsWith(ts[k].url, "http") && exists i :: 0 <= i < |ms| && ts[k] == TitleOf(ms[i])
    {
      assert ts[k] in ts;
      var i :| 0 <= i < |ms| && ts[k] == TitleOf(ms[i]);
    }
  }

  /** Every surviving description is the candidate of a description match
      and is longer than 20. */
  lemma DescriptionsSpec(ms: seq<string>)
    ensures var ds := Descriptions(ms);
      forall k :: 0 <= k < |ds| ==>
        |ds[k]| > 20 && exists i :: 0 <= i < |ms| && ds[k] == DescriptionOf(ms[i])
  {
    var ds := Descriptions(ms);
    MapFilterSpec(ms, DescriptionOf, IsKeptDescription);
    forall k | 0 <= k < |ds| ensures |ds[k]| > 20 && exists i :: 0 <= i < |ms| && ds[k] == DescriptionOf(ms[i]) {
      assert ds[k] in ds;
    }
  }

  /** There are one to five results. Without titles there is exactly the
      fallback result; otherwise no result is a fallback, and result `k`
      pairs title `k` with description `k`, or with the default text when
      there are fewer descriptions. */
  lemma AssembleSpec(titles: seq<TitleLink>, descriptions: seq<string>, query: string)
    requires forall k :: 0 <= k < |descriptions| ==> descriptions[k] != ""
    ensures var r := Assemble(titles, descriptions, query);
      && 1 <= |r| <= 5
      && (titles == [] <==> r == [Fallback(query)])
      && (titles == [] <==> exists k :: 0 <= k < |r| && r[k].isFallback)
    ensures var r := Assemble(titles, descriptions, query);
      titles != [] ==>
        && |r| == Min(|titles|, 5)
        && forall k :: 0 <= k < |r| ==>
             && r[k].title == titles[k].title && r[k].url == titles[k].url
             && (k < |descriptions| ==> r[k].description == descriptions[k])
             && (k >= |descriptions| ==> r[k].description == DefaultDescription(query))
  {
    var r := Assemble(titles, descriptions, query);
    if titles == [] {
      assert r[0].isFallback;
    } else {
      assert !r[0].isFallback;
      assert forall k :: 0 <= k < |r| ==> !r[k].isFallback;
    }
  }

  /** `parseSearchResults` as a whole: one to five results; exactly the
      fallback result when no title survives; otherwise result `k` has the
      text (longer than 10) and the address (starting with `http`) of the
      `k`-th surviving title, and the `k`-th surviving description (longer
      than 20) or the default text. */
  lemma ParseSpecCorrect(titleMatches: seq<TitleMatch>, descriptionMatches: seq<string>, query: string)
    ensures var r := ParseSpec(titleMatches, descriptionMatches, query);
      && 1 <= |r| <= 5
      && (Titles(titleMatches) == [] <==> r == [Fallback(query)])
      && (Titles(titleMatches) == [] <==> exists k :: 0 <= k < |r| && r[k].isFallback)
    ensures var r := ParseSpec(titleMatches, descriptionMatches, query);
      var ts := Titles(titleMatches);
      var ds := Descriptions(descriptionMatches);
      ts != [] ==> forall k :: 0 <= k < |r| ==>
        && r[k].title == ts[k].title && |r[k].title| > 10
        && r[k].url == ts[k].url && StartsWith(r[k].url, "http")
        && (k < |ds| ==> r[k].description == ds[k] && |r[k].description| > 20)
        && (k >= |ds| ==> r[k].description == DefaultDescription(query))
  {
    var ts := Titles(titleMatches);
    var ds := Descriptions(descriptionMatches);
    TitlesSpec(titleMatches);
    DescriptionsSpec(descriptionMatches);
    AssembleSpec(ts, ds, query);
  }

  /** The combining loop: result `i` from title `i` and description `i`,
      for the first five titles. */
  method CombineResults(titles: seq<TitleLink>, descriptions: seq<string>, query: string)
    returns (results: seq<SearchResult>)
    ensures results == Combined(titles, descriptions, query)
  {
    results := [];
    var i := 0;
    while i < Min(|titles|, 5)
      invariant i <= Min(|titles|, 5)
      invariant results == Combined(titles, descriptions, query)[..i]
    {
      var description := if i < |descriptions| && descriptions[i] != "" then descriptions[i] else DefaultDescription(query);
      ghost var all := Combined(titles, descriptions, query);
      assert description == DescriptionAt(descriptions, i, query);
      assert all[..i + 1] == all[..i] + [all[i]];
      results := results + [SearchResult(titles[i].title, description, titles[i].url, false)];
      i := i + 1;
    }
  }

  /** The two collecting loops of `parseSearchResults`, the combining loop
      and the fallback. */
  method ParseSearchResults(titleMatches: seq<TitleMatch>, descriptionMatches: seq<string>, query: string)
    returns (results: seq<SearchResult>)
    ensures results == ParseSpec(titleMatches, descriptionMatches, query)
  {
    var titles := MapFilter(titleMatches, TitleOf, IsKeptTitle);
    var descriptions := MapFilter(descriptionMatches, DescriptionOf, IsKeptDescription);
    results := CombineResults(titles, descriptions, query);
    if |results| == 0 {
      results := results + [Fallback(query)];
    }
  }

  // ---------------------------------------------------------------------
  // The handler

  /** What the fetch of the search page gave: `None` when it threw, timed
      out or answered with an error status; otherwise the matches of the
      page's title and description patterns. */
  datatype Page = Page(titleMatches: seq<TitleMatch>, descriptionMatches: seq<string>)

  /** The `POST` handler: the guard, then the parsed results of the fetched
      page, or the fallback result when the fetch failed. */
  function Search(body: Option<Json>, page: Option<Page>): (r: SearchResponse)
    ensures QueryGuard(body).Stop? <==> r.SearchFailed?
    ensures r.SearchDone? ==>
      && Get(body, "query") == Some(JStr(r.query)) && r.query != ""
      && r.searchUrl == SearchUrl(r.query)
      && 1 <= |r.results| <= 5
      && (r.fallback <==> page.None?)
      && (r.fallback ==> r.results == [Fallback(r.query)])
      && (page.Some? ==> r.results == ParseSpec(page.value.titleMatches, page.value.descriptionMatches, r.query))
      && (r.results == [Fallback(r.query)] <==> page.None? || Titles(page.value.titleMatches) == [])
  {
    match QueryGuard(body)
    case Stop(response) => response
    case Proceed(query) =>
      match page
      case None => SearchDone(query, [Fallback(query)], SearchUrl(query), true)
      case Some(p) =>
        ParseSpecCorrect(p.titleMatches, p.descriptionMatches, query);
        SearchDone(query, ParseSpec(p.titleMatches, p.descriptionMatches, query), SearchUrl(query), false)
  }
}

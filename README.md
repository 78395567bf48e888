# faqlue-demo core, modelled in Dafny

This project models the logic of the FAQ widget back end of faqlue-demo:

- **FAQ edge function** (`supabase/functions/faq-public/index.ts`):
  - the text helpers (`normalize`, `isQuestion`, `NOISE_RE`, `stripTagsKeepBreaks`);
  - the designonstock slicer `sliceDosFaq`;
  - the three heuristic extractors;
  - the `extractFaqPairs` orchestrator, where JSON-LD FAQPage data is the authority;
  - the crawl's change classifier: upsert under the normalized question, log NEW / UPDATED, then the STALE sweep that unpublishes what was not crawled;
  - the presentation step: the latest change gives each item its badge, and a comparator orders items by badge priority, then by a curated question list.
- **Interaction-event endpoint** (`app/api/faq/hit/route.ts`): its guard sequence.
- **External search endpoint** (`app/api/search-external/route.ts`): its query guard and the filter/zip/fallback assembly of `parseSearchResults`.

Modules, one file each:

| file | module | what it holds |
|---|---|---|
| `strings.dfy` | `Strings` | JavaScript string operations the code relies on (`toLowerCase`, `trim`, `indexOf`, `includes`, `\s`, `\w`) |
| `json.dfy` | `JsonValue` | parsed JSON values with JavaScript truthiness, optional property access, `??` and `toString` |
| `faq_text.dfy` | `FaqText` | `isQuestion`, `NOISE_RE`, `normalize`, a global-replace engine for the tag and white-space regular expressions, `stripTagsKeepBreaks` |
| `faq_extract.dfy` | `FaqExtract` | `sliceDosFaq`, the three extractors, `extractJsonLd`, the FAQPage loop, the first-seen dedupe, `extractFaqPairs` |
| `faq_changes.dfy` | `FaqChanges` | the crawl as a function on a store snapshot, and a `FaqStore` class whose methods update the item table and the change log in place |
| `faq_order.dfy` | `FaqOrder` | the change map, badges, the comparator and its sort key, and a stable in-place insertion sort on an array |
| `hit_route.dfy` | `HitRoute` | the validation sequence of `POST`, as a total function from the parsed body to a response |
| `search_external.dfy` | `SearchExternal` | the query guard, `encodeURIComponent`, the search URL, `parseSearchResults` and the handler |

How operations are modelled:

- **Imperative code is modelled with methods.** Each loop becomes a method with a `while` loop. Its `ensures` ties the result, or the store's new state, to a specification function, and lemmas prove what the source promises about that function.
- **Regular expressions.** Those simple enough to state exactly are modelled as scanners:
  - `\s+`, `\s{2,}`, `\n{3,}`;
  - the tag rules of `stripTagsKeepBreaks`;
  - `[^.!?]*\?`, `[.!?]`, `\r?\n`, `<[^>]*>`;
  - `QUESTION_RE` and `NOISE_RE`.
- **Other regular expressions are inputs.** The heading regex, the Q/A label patterns, the JSON-LD script-block regex, and the search page's title and description regexes are given as the sequences of their matches.

## Model

| member | source | states |
|---|---|---|
| Strings.Lower | supabase/functions/faq-public/index.ts:17 | `toLowerCase` keeps the length and maps each character on its own |
| Strings.LowerIsLower | supabase/functions/faq-public/index.ts:17 | a lower-cased string is fixed by lower-casing |
| Strings.Trim | supabase/functions/faq-public/index.ts:16-17 | `trim` leaves no white space at either end and never lengthens |
| Strings.TrimSpec | supabase/functions/faq-public/index.ts:16-17 | the trimmed text is a contiguous slice of the input, and everything cut off before and after it is white space |
| Strings.TrimUnique | supabase/functions/faq-public/index.ts:16-17 | a trimmed text with white space added on either side trims back to itself |
| Strings.TrimOfTrimmed | supabase/functions/faq-public/index.ts:121 | trimming a trimmed string changes nothing |
| Strings.IndexOf | supabase/functions/faq-public/index.ts:99-106 | `indexOf(p, from)` is the first occurrence at or after `from`, or -1 when there is none |
| Strings.IndexOfCI | supabase/functions/faq-public/index.ts:21-22 | the case-insensitive search finds the first match at or after `from`, or -1 when there is none |
| FaqText.IndexOfWord | supabase/functions/faq-public/index.ts:14-15 | `\bw\b` with flag `i`: the first whole-word match, or -1 when there is none |
| FaqText.QuestionWordFromSpec | supabase/functions/faq-public/index.ts:14-15 | the word alternation matches iff some listed word occurs as a whole word |
| FaqText.IsQuestionSpec | supabase/functions/faq-public/index.ts:14-16 | `isQuestion(s)` iff `s` is non-empty and its trimmed form ends in `?` or holds a question word; a question never trims to blank |
| FaqText.NoiseFromSpec | supabase/functions/faq-public/index.ts:21-22 | the alternation from word `j` on matches iff one of those words occurs, ignoring case |
| FaqText.IsNoiseSpec | supabase/functions/faq-public/index.ts:21-22 | `NOISE_RE.test` iff one of the noise words (`e-?mailadres` as two words) occurs, ignoring case |
| FaqText.SpaceRunLength | supabase/functions/faq-public/index.ts:17 | `\s+` at a position covers the whole run of white space there |
| FaqText.MatchAt | supabase/functions/faq-public/index.ts:45-51 | a match of a replacement pattern is non-empty and inside the text |
| FaqText.Normalize | supabase/functions/faq-public/index.ts:17-18 | `normalize` yields a canonical key: lower case, single plain spaces, trimmed |
| FaqText.NormalFixed | supabase/functions/faq-public/index.ts:17 | a canonical key is its own normal form |
| FaqText.NormalizeIdempotent | supabase/functions/faq-public/index.ts:17-18 | normalizing twice is normalizing once |
| FaqText.NormalizeSpec | supabase/functions/faq-public/index.ts:17-18 | the key is the input's white-space-separated words, lower-cased, joined by single spaces |
| FaqText.NormalizeIgnoresCase | supabase/functions/faq-public/index.ts:17 | questions that differ only in case get the same key |
| FaqText.CollapseShape | supabase/functions/faq-public/index.ts:50 | after a white-space-run replacement no two white-space characters are adjacent |
| FaqText.CollapsePlainSpaces | supabase/functions/faq-public/index.ts:17 | after `\s+` → space, every white-space character is a plain space |
| FaqText.CollapsedText | supabase/functions/faq-public/index.ts:45-50 | after the tag rules and `\s{2,}`, no two white-space characters are adjacent |
| FaqText.StripTagsKeepBreaks | supabase/functions/faq-public/index.ts:43-53 | the output never starts or ends with white space and has no two adjacent white-space characters |
| FaqText.StripTagsKeepsPlain | supabase/functions/faq-public/index.ts:43-53 | text without `<`, without two adjacent white-space characters and without white space at its ends comes out unchanged |
| FaqText.StripTagsBreak | supabase/functions/faq-public/index.ts:43-53 | a `<br>` between two such texts becomes one line feed and both texts are kept |
| FaqText.StripTagsBlockPair | supabase/functions/faq-public/index.ts:43-53 | a `</p><p>` between two such texts becomes one space: the `\s{2,}` rule also joins the two line feeds the break rule made |
| FaqText.ReplaceCopies | supabase/functions/faq-public/index.ts:44-51 | a global replacement copies every stretch in which no match starts |
| FaqText.ReplaceKeeps | supabase/functions/faq-public/index.ts:44-51 | a global replacement leaves text in which nothing matches unchanged |
| FaqText.ElementNeedsLt | supabase/functions/faq-public/index.ts:46-48 | the `form`, `script` and `style` patterns match only at a `<` |
| FaqText.TagNeedsLt | supabase/functions/faq-public/index.ts:45-49 | the five tag patterns match only at a `<` |
| FaqText.TagRulesKeep | supabase/functions/faq-public/index.ts:45-49 | the tag rules leave text without `<` unchanged |
| FaqText.NoSpacePairNoRun | supabase/functions/faq-public/index.ts:50 | `\s{2,}` matches only where two white-space characters are adjacent |
| FaqText.CollapseKeeps | supabase/functions/faq-public/index.ts:50 | the `\s{2,}` rule leaves text without two adjacent white-space characters unchanged |
| FaqText.StripAfterBreaks | supabase/functions/faq-public/index.ts:43-53 | when the break rule leaves no `<`, only the `\s{2,}` rule and the trim change the text further |
| FaqText.BrIsBreakTag | supabase/functions/faq-public/index.ts:45 | `<br>` is a four-character match of the break pattern |
| FaqText.ClosePIsBreakTag | supabase/functions/faq-public/index.ts:45 | `</p>` is a four-character match of the break pattern |
| FaqText.OpenPIsBreakTag | supabase/functions/faq-public/index.ts:45 | `<p>` is a three-character match of the break pattern |
| FaqText.BreakRuleOnBr | supabase/functions/faq-public/index.ts:45 | the break rule turns `a<br>b` into `a`, a line feed, `b`, for `a` and `b` without `<` |
| FaqText.BreakRuleOnBlockPair | supabase/functions/faq-public/index.ts:45 | the break rule turns `a</p><p>b` into `a`, two line feeds, `b` |
| FaqText.CollapseBlankLine | supabase/functions/faq-public/index.ts:50 | the `\s{2,}` rule turns two line feeds between plain texts into one space and keeps the texts |
| FaqText.StripTagsLeavesNoTag | supabase/functions/faq-public/index.ts:43-53 | no match of `<[^>]+>` is left in the output: each `<` is followed by `>` at once or by no `>` at all (a `<>` or an unclosed `<` in the page survives) |
| FaqText.NoTagNoMatch | supabase/functions/faq-public/index.ts:49 | in text where each `<` is followed by `>` at once or by no `>`, the pattern `<[^>]+>` matches nowhere |
| FaqText.NoTagAt | supabase/functions/faq-public/index.ts:49 | in text without tags, each `<` is followed by `>` at once or by no `>` at all |
| FaqText.AnyTagGone | supabase/functions/faq-public/index.ts:49 | `replace(/<[^>]+>/g, " ")` leaves no tag |
| FaqText.CollapseNoTag | supabase/functions/faq-public/index.ts:50 | collapsing white-space runs into one space makes no new tag |
| FaqText.ReplaceAddsNoClose | supabase/functions/faq-public/index.ts:44-51 | a replacement by text without `>`, over text without `>`, has no `>` |
| FaqText.TrimNoTag | supabase/functions/faq-public/index.ts:52 | trimming text without tags leaves none |
| FaqText.NewlineRuleIsNoOp | supabase/functions/faq-public/index.ts:50-51 | the `\n{3,}` rule never changes the text the `\s{2,}` rule left |
| FaqExtract.FlattenLines | supabase/functions/faq-public/index.ts:70 | `replace(/\r?\n/g, " ")` leaves no line feed and never lengthens |
| FaqExtract.FlattenNoBreak | supabase/functions/faq-public/index.ts:70 | a text without line feeds is left unchanged |
| FaqExtract.FlattenBreak | supabase/functions/faq-public/index.ts:70 | text up to the first line feed is kept; that line feed, with a carriage return right before it, becomes one space; the rest is flattened on its own |
| FaqExtract.FlattenLine | supabase/functions/faq-public/index.ts:70 | the line before the first line feed, without a trailing carriage return, is copied unchanged |
| FaqExtract.FlattenAtBreak | supabase/functions/faq-public/index.ts:70 | the first `\r?\n` becomes one space |
| FaqExtract.JsSliceInBounds | supabase/functions/faq-public/index.ts:85 | `slice` within bounds is the substring |
| FaqExtract.CleanIsStripped | supabase/functions/faq-public/index.ts:121 | the `.trim()` after `stripTagsKeepBreaks` is a no-op |
| FaqExtract.FilterSpec | supabase/functions/faq-public/index.ts:75-79 | a push-when-it-passes loop keeps exactly the passing elements, in order |
| FaqExtract.MapFilterSpec | supabase/functions/faq-public/index.ts:75-79 | at most one output per input; each output passes the test and comes from an input |
| FaqExtract.MapFilter | supabase/functions/faq-public/index.ts:75-79 | the loop computes the map-then-filter of its input |
| FaqExtract.MapFilterOrder | supabase/functions/faq-public/index.ts:75-79 | the outputs come from strictly increasing input positions, and every input whose image passes has one |
| FaqExtract.Positives | supabase/functions/faq-public/index.ts:107 | `filter(i => i > 0)` keeps exactly the positive indexes |
| FaqExtract.Minimum | supabase/functions/faq-public/index.ts:108 | `Math.min` is an element no larger than any other |
| FaqExtract.SliceEndSpec | supabase/functions/faq-public/index.ts:101-108 | the end lies after the marker; no end marker occurs before it; it is the first end marker or the end of the page |
| FaqExtract.SliceDosFaq | supabase/functions/faq-public/index.ts:97-110 | the slice is never longer than the page |
| FaqExtract.SliceDosFaqSpec | supabase/functions/faq-public/index.ts:97-110 | without the marker the page is returned unchanged; otherwise the result is the substring from the first marker up to the first end marker after it, or to the end of the page |
| FaqExtract.AnchorsSpec | supabase/functions/faq-public/index.ts:75-80 | every anchor is a stripped heading that is a question, not noise and shorter than 180 |
| FaqExtract.AnchorsOrder | supabase/functions/faq-public/index.ts:75-80 | the anchors are the passing headings in page order, and every heading that passes is an anchor |
| FaqExtract.LooseRegions | supabase/functions/faq-public/index.ts:82-85 | one raw region per anchor |
| FaqExtract.LooseBlocksSpec | supabase/functions/faq-public/index.ts:69-94 | at most one pair per heading; each question is an anchor's text; each answer is non-empty, not noise, at least 40 long, and is the cleaned text between that anchor and the next |
| FaqExtract.LooseBlocksOrder | supabase/functions/faq-public/index.ts:69-94 | the pairs follow the anchors in page order; each is its anchor's text and the cleaned region up to the next anchor; every anchor whose region passes the answer test gives a pair |
| FaqExtract.ExtractBlocksLoosely | supabase/functions/faq-public/index.ts:69-94 | the two loops compute the loose blocks |
| FaqExtract.NextTerminator | supabase/functions/faq-public/index.ts:136 | `search(/[.!?]/)`: the first terminator at or after the start, or -1 when there is none |
| FaqExtract.QuestionSpans | supabase/functions/faq-public/index.ts:118 | each match of `[^.!?]*\?` ends in `?` and holds no other terminator |
| FaqExtract.AggressiveSpec | supabase/functions/faq-public/index.ts:113-148 | each question is 16–199 long, a question, not noise, and free of `/`, `http`, `www`, `gtag`, `script`, `com/`, `.js`; each answer is longer than 50 and not noise; each pair comes from one `?` sentence of the page: its question is that sentence cleaned, its answer the cleaned text after it up to the next `.`/`!`/`?` or 500 characters |
| FaqExtract.AggressiveOrder | supabase/functions/faq-public/index.ts:113-148 | the pairs follow the order of their sentences in the page, each pair is built from its own sentence and the text after it, and every sentence whose pair passes the filters yields a pair |
| FaqExtract.AggressiveSpansOrder | supabase/functions/faq-public/index.ts:113-148 | the same, for any list of sentences: the kept pairs are the passing candidates, in order |
| FaqExtract.ExtractQuestionsAggressively | supabase/functions/faq-public/index.ts:113-148 | the loop computes the aggressive pairs |
| FaqExtract.LabelPairsSound | supabase/functions/faq-public/index.ts:161-172 | every pattern pair has a question longer than 10 and an answer longer than 30, neither noise |
| FaqExtract.ExtractFaqPatterns | supabase/functions/faq-public/index.ts:151-175 | the loops over both patterns compute the pattern pairs, pattern after pattern |
| FaqExtract.JsonLdValues | supabase/functions/faq-public/index.ts:55-66 | every parsed value is collected, with arrays spread, and nothing else is |
| FaqExtract.ExtractJsonLd | supabase/functions/faq-public/index.ts:55-66 | the loop collects the JSON-LD values, skipping blocks that fail to parse |
| FaqExtract.FaqPagePairsSound | supabase/functions/faq-public/index.ts:181-191 | each FAQPage pair is a question with a non-empty answer, neither noise |
| FaqExtract.FaqPagePairsStaysNone | supabase/functions/faq-public/index.ts:183 | once the FAQPage loop throws, the extraction has thrown |
| FaqExtract.ReadFaqPages | supabase/functions/faq-public/index.ts:180-191 | the FAQPage loop computes the JSON-LD pairs, or the throw |
| FaqExtract.FindIndexByKey | supabase/functions/faq-public/index.ts:203 | `findIndex` is the first position whose lower-cased question matches, or -1 when there is none |
| FaqExtract.FindIndexIsFirst | supabase/functions/faq-public/index.ts:202-204 | the dedupe filter keeps a pair iff no earlier pair has its lower-cased question |
| FaqExtract.DedupeIndexesSpec | supabase/functions/faq-public/index.ts:202-204 | the dedupe keeps the first pair of each key, in increasing input order |
| FaqExtract.DedupeDistinct | supabase/functions/faq-public/index.ts:202-204 | no two kept pairs share a lower-cased question |
| FaqExtract.DedupeCovers | supabase/functions/faq-public/index.ts:202-204 | every input key keeps a representative |
| FaqExtract.DedupeKeepsOnlyInput | supabase/functions/faq-public/index.ts:202-204 | nothing is invented |
| FaqExtract.DedupeKeepsFirsts | supabase/functions/faq-public/index.ts:202-204 | every first occurrence is kept |
| FaqExtract.DedupeSpec | supabase/functions/faq-public/index.ts:201-204 | the result is no longer than the input, its keys are distinct, it covers every input key, and it is empty iff the input is |
| FaqExtract.Top | supabase/functions/faq-public/index.ts:206 | `slice(0, 12)` holds at most 12 pairs |
| FaqExtract.TopOfDedupe | supabase/functions/faq-public/index.ts:202-206 | the capped result is the first `min(12, n)` unique pairs, all distinct, all from the input, empty iff the input is |
| FaqExtract.FaqPairsJsonLd | supabase/functions/faq-public/index.ts:180-192 | extraction throws iff the FAQPage loop throws; non-empty FAQPage pairs are returned unchanged and uncapped |
| FaqExtract.FaqPairsMerged | supabase/functions/faq-public/index.ts:194-206 | without FAQPage pairs and with some heuristic pairs: exactly `min(12, n)` pairs for the `n` unique keys of loose ++ aggressive ++ patterns, a prefix of their dedupe, with distinct keys |
| FaqExtract.FaqPairsFallback | supabase/functions/faq-public/index.ts:208-209 | when the heuristics find nothing, the loose blocks of the whole page are returned |
| FaqExtract.ExtractFaqPairs | supabase/functions/faq-public/index.ts:178-210 | the orchestrator computes `extractFaqPairs` |
| FaqChanges.FindHash | supabase/functions/faq-public/index.ts:245-250 | the lookup by `question_hash` finds the item with that key, or reports that none exists |
| FaqChanges.UpsertValid | supabase/functions/faq-public/index.ts:252-264 | the upsert keeps keys unique, ids unique and below the next id |
| FaqChanges.UpsertRecord | supabase/functions/faq-public/index.ts:266-284 | an absent key logs `NEW{before null, after answer}`; a different stored answer logs `UPDATED{before old, after new}`; an equal answer logs nothing |
| FaqChanges.UpsertPublishes | supabase/functions/faq-public/index.ts:252-264 | after the upsert the pair is stored published under its key with its answer, at most one row is added, and every other row is unchanged |
| FaqChanges.StaleChangesSpec | supabase/functions/faq-public/index.ts:298-306 | the STALE changes name exactly the items whose key was not crawled, each with its answer as before |
| FaqChanges.SweepItems | supabase/functions/faq-public/index.ts:298-311 | the sweep keeps the constraints and every field but `published`, which stays true only for published crawled keys |
| FaqChanges.SweepLog | supabase/functions/faq-public/index.ts:298-306 | the sweep only appends, and it appends a STALE change for every uncrawled item, published or not, and nothing else |
| FaqChanges.KeySet | supabase/functions/faq-public/index.ts:290 | `new Set(keys)` holds exactly the crawled keys |
| FaqChanges.CrawlStaysFailed | supabase/functions/faq-public/index.ts:238-241 | once a source throws, the remaining sources change nothing |
| FaqChanges.UpsertExtends | supabase/functions/faq-public/index.ts:244-284 | an upsert keeps every row's key and id, unpublishes nothing, logs no STALE change, and stores its key |
| FaqChanges.UpsertPairsSpec | supabase/functions/faq-public/index.ts:244-284 | one source's upserts store every one of its keys, published |
| FaqChanges.CrawlUpsertsSpec | supabase/functions/faq-public/index.ts:238-285 | the upsert phase keeps the constraints, extends the items, logs no STALE change, and stores every crawled key |
| FaqChanges.SweepAfterUpserts | supabase/functions/faq-public/index.ts:286-311 | after the sweep an item is published iff its key was crawled, and every crawled key is stored |
| FaqChanges.UpsertedKeysPublished | supabase/functions/faq-public/index.ts:252-264 | keys are unique, so the row under an upserted key is the published one |
| FaqChanges.CrawlSucceeds | supabase/functions/faq-public/index.ts:230-311 | a full crawl leaves each item published iff its normalized question was crawled, stores every crawled key, keeps the constraints, and only appends to the log |
| FaqChanges.CrawlFails | supabase/functions/faq-public/index.ts:238-241 | a crawl in which a source throws unpublishes nothing and logs no STALE change |
| FaqChanges.FaqStore.UpsertPair | supabase/functions/faq-public/index.ts:244-284 | one pair's lookup, upsert and change record, in place |
| FaqChanges.FaqStore.UpsertAll | supabase/functions/faq-public/index.ts:244-285 | the pairs of one source are upserted in order |
| FaqChanges.FaqStore.MarkStale | supabase/functions/faq-public/index.ts:298-311 | the loop over the stored items performs the stale sweep |
| FaqChanges.FaqStore.UpsertSources | supabase/functions/faq-public/index.ts:235-285 | the loop over the sources performs the upsert phase and collects `allCrawledPairs` |
| FaqChanges.FaqStore.CrawlSources | supabase/functions/faq-public/index.ts:230-312 | the whole crawl, in place, as `Crawl` specifies it |
| FaqOrder.LatestKind | supabase/functions/faq-public/index.ts:330-336 | the first change of an item in the newest-first list, or none iff it has no change |
| FaqOrder.LatestKindSnoc | supabase/functions/faq-public/index.ts:331-335 | a later change never displaces the one already recorded |
| FaqOrder.BuildChangeMap | supabase/functions/faq-public/index.ts:330-336 | the loop maps exactly the items that have a change, each to its latest change kind |
| FaqOrder.Reverse | supabase/functions/faq-public/index.ts:327 | `order("created_at", desc)` over an append-only log is its reverse |
| FaqOrder.LatestIsLastAppended | supabase/functions/faq-public/index.ts:321-336 | an item's badge is the kind of the last change appended for it |
| FaqOrder.UpsertBadge | supabase/functions/faq-public/index.ts:266-284 | after a NEW upsert the item's badge is NEW; after an UPDATED one it is UPDATED |
| FaqOrder.Priority | supabase/functions/faq-public/index.ts:370-372 | NEW 0, UPDATED 1, no badge 2, STALE 3, each iff |
| FaqOrder.CuratedIndex | supabase/functions/faq-public/index.ts:380-387 | the first curated question that contains the question, or that the question contains, ignoring case; -1 when there is none |
| FaqOrder.CompareIsRank | supabase/functions/faq-public/index.ts:375-398 | the comparator's sign is the sign of the difference of the sort keys (priority, then curated index, unlisted last), so it is a consistent order |
| FaqOrder.InsertPermutes | supabase/functions/faq-public/index.ts:375-398 | inserting adds the element and loses nothing |
| FaqOrder.InsertSorted | supabase/functions/faq-public/index.ts:375-398 | inserting into a sorted sequence keeps it sorted |
| FaqOrder.InsertKeepsKeyOrder | supabase/functions/faq-public/index.ts:375-398 | insertion puts the element after every element with the same key |
| FaqOrder.SortByCorrect | supabase/functions/faq-public/index.ts:375-398 | the sort is ordered by key, a permutation, and stable: equal keys keep their input order |
| FaqOrder.InsertAt | supabase/functions/faq-public/index.ts:375-398 | shifting the greater elements right inserts at the right place |
| FaqOrder.InsertInto | supabase/functions/faq-public/index.ts:375-398 | the in-place insertion step inserts `a[i]` into the sorted prefix and leaves the rest alone |
| FaqOrder.InsertionSort | supabase/functions/faq-public/index.ts:375-398 | the in-place sort leaves the array equal to the stable sort of its contents |
| FaqOrder.SortShown | supabase/functions/faq-public/index.ts:375-398 | `itemsWithBadges.sort(compare)` sorts the array in place by the comparator's key |
| FaqOrder.PublishedSpec | supabase/functions/faq-public/index.ts:316-320 | the items query returns exactly the stored items that are published |
| FaqOrder.PresentedItems | supabase/functions/faq-public/index.ts:316-398 | the presented list has one row per published item and nothing else; each row keeps its item's id, question and answer and is badged with the item's latest change kind; the list is sorted by the comparator's key, and equal keys keep the query's order |
| FaqOrder.PresentedBy | supabase/functions/faq-public/index.ts:316-398 | the same for any sort key |
| FaqOrder.PresentItems | supabase/functions/faq-public/index.ts:316-398 | the method reads the published items and leaves the list that `PresentedItems` describes |
| HitRoute.EventTypeOf | app/api/faq/hit/route.ts:17 | `["search", "click"].includes(type)` holds iff the type is one of the two strings |
| HitRoute.ValidateEvent | app/api/faq/hit/route.ts:4-56 | each rejection happens iff the checks before it pass and it fails; the event is accepted iff every check passes; the event carries the query only for search and the item only for click |
| HitRoute.ExtraFieldsIgnored | app/api/faq/hit/route.ts:6 | fields other than the four do not change the response |
| SearchExternal.PercentByte | app/api/search-external/route.ts:16 | one byte is encoded as `%` followed by two hex digits |
| SearchExternal.PercentByteDecodes | app/api/search-external/route.ts:16 | the two hex digits read back as the byte |
| SearchExternal.Utf8 | app/api/search-external/route.ts:16 | a code point is one to four bytes; one byte, the code point itself, iff it is below 0x80; otherwise a lead byte from 0xC0 and continuation bytes 0x80–0xBF |
| SearchExternal.Utf8Decodes | app/api/search-external/route.ts:16 | UTF-8 decoding gives the code point back |
| SearchExternal.PercentBytes | app/api/search-external/route.ts:16 | three characters per byte, all `%` or hex digits |
| SearchExternal.PercentBytesDecode | app/api/search-external/route.ts:16 | percent-decoding gives the bytes back |
| SearchExternal.EncodeChar | app/api/search-external/route.ts:16 | an unreserved character passes unchanged; any other becomes 3 to 12 characters starting with `%` |
| SearchExternal.EncodeCharDecodes | app/api/search-external/route.ts:16 | an escaped character is read back by percent-decoding and UTF-8 decoding |
| SearchExternal.EncodeURIComponent | app/api/search-external/route.ts:16 | the output holds only unreserved characters and `%`; an all-unreserved query is unchanged |
| SearchExternal.QueryGuard | app/api/search-external/route.ts:4-13 | 500 iff the body is not JSON or is null; the handler goes on iff `query` is a non-empty string; otherwise 400 "Query is required" |
| SearchExternal.SearchUrl | app/api/search-external/route.ts:16 | the search URL is an http address |
| SearchExternal.FullUrl | app/api/search-external/route.ts:94 | an href starting with `http` is kept; any other is prefixed with the site's address |
| SearchExternal.RemoveTagsShape | app/api/search-external/route.ts:95 | `replace(/<[^>]*>/g, '')` leaves no `<` that a later `>` closes |
| SearchExternal.NoClosedTagAt | app/api/search-external/route.ts:95 | in such text, no `>` comes anywhere after a `<` |
| SearchExternal.RemoveTagsKeeps | app/api/search-external/route.ts:95 | text without `<` is kept unchanged |
| SearchExternal.RemoveTagsStep | app/api/search-external/route.ts:95 | the first tag, after text without `<`, is removed and the text before it kept: `a<t>b` becomes `a` followed by the stripped `b` |
| SearchExternal.RemoveTagsUnclosed | app/api/search-external/route.ts:95 | a `<` that no `>` follows is kept, with everything after it |
| SearchExternal.RemoveTagsUnclosedRest | app/api/search-external/route.ts:95 | text without `>` is kept unchanged |
| SearchExternal.TitlesSpec | app/api/search-external/route.ts:93-99 | every kept title comes from a match, is longer than 10, and has an http address |
| SearchExternal.DescriptionsSpec | app/api/search-external/route.ts:102-108 | every kept description comes from a match and is longer than 20 |
| SearchExternal.Combined | app/api/search-external/route.ts:111-120 | the zip yields `min(titles, 5)` results |
| SearchExternal.AssembleSpec | app/api/search-external/route.ts:111-130 | 1 to 5 results; the single fallback iff no title survived; result i is title i with description i or the default |
| SearchExternal.ParseSpecCorrect | app/api/search-external/route.ts:93-130 | `parseSearchResults` gives 1 to 5 results, the fallback iff no title is kept, and each result's title, address and description meet their filters |
| SearchExternal.CombineResults | app/api/search-external/route.ts:111-120 | the indexed loop computes the zip |
| SearchExternal.ParseSearchResults | app/api/search-external/route.ts:73-145 | the two match loops, the zip and the fallback compute `parseSearchResults` |
| SearchExternal.Search | app/api/search-external/route.ts:3-71 | the handler fails iff the guard stops it; otherwise it answers with the query, its search URL and 1 to 5 results; the fallback flag is set iff the fetch failed; a fetched page's results are `parseSearchResults` of it; the single fallback result is used iff the fetch failed or no title was kept |

## Left out

- I/O is left out: the Supabase client, `fetch` with its headers and timeout, `console` logging, request parsing and the `json()`/`NextResponse` wrappers. The database is an in-memory snapshot: the item table of one context plus an append-only change log. A fetched page is a parameter: the regex matches of the search page, or `None` when the fetch failed.
- Timestamps are left out. `created_at` and `updated_at` are represented by the order of the change log; `order("created_at", desc)` is the reversed log.
- The changes query's `.in("item_id", …)` filter is not modelled separately. `BuildChangeMap` maps the latest change of every item. Only the published items (`Published`) are badged, so the filter changes no badge.
- Regular expressions with backtracking are not modelled as an engine. Their matches are inputs:
  - the heading regex `qRe`;
  - the two Q/A label patterns;
  - the JSON-LD script-block regex and `JSON.parse` (a block that fails to parse is `None`);
  - the search page's title and description regexes.
- `FaqStore.CrawlSources`: the dead-code guard `if (false && doCrawl)` is not modelled. The crawl behind it is, as if the guard were true.
- FaqStore.UpsertPair: the key `normalize(question)` is computed by the caller and passed in. The model does not capture that the source computes it twice inline.
- `FaqStore.CrawlSources`: a source whose fetch or extraction throws ends the run before the sweep. The source's handler catches that throw and answers 500; the response itself is not modelled.
- `toLowerCase` covers the Basic Latin and Latin-1 letters only; other scripts are left unchanged.
- Lengths count Unicode scalar values, not UTF-16 code units.
- `encodeURIComponent` is modelled on scalar values. Lone surrogates, which make it throw, cannot occur in a Dafny string.
- JSON numbers are integers; NaN and fractions are not modelled. Numbers are converted to text by their decimal digits.
- In `extractQuestionsAggressively` the answer text is computed for every candidate, not only after the question passes. Both are pure, so the pairs are the same.
- The dedupe key of `extractFaqPairs` is `question.toLowerCase()`, as the code has it, not the normalized question.
- The `catch` in `parseSearchResults` is not modelled. Nothing in the modelled body can throw, so that branch is unreachable.
- The `FaqStore` methods state their new state through the specification functions. The table constraints they keep are proved about those functions (`UpsertValid`, `CrawlSucceeds`), not restated on the methods.
- FaqText.StripTagsKeepBreaks: the intent that semantic line breaks survive holds for a single block boundary only. A `<br>` between two texts becomes a line feed (`StripTagsBreak`). Two adjacent block tags, such as `</p><p>`, become one space (`StripTagsBlockPair`): the break rule at index.ts:45 makes two line feeds, and the `\s{2,}` rule at index.ts:50, which runs later, joins them. The model follows the code.
- `stripTags` is not part of this model: nothing calls it. The React pages and components are not part of it either.

/** The change classifier of the crawl: each extracted pair is upserted into
    the context's FAQ items under its normalized question, a NEW or UPDATED
    change is logged when the stored answer is absent or different, and
    after all sources every item whose key was not crawled gets a STALE
    change and is unpublished.

    The database is an in-memory store: the item table of one context and
    the change log, to which changes are only ever appended. The log's order
    stands for the `created_at` timestamps. */
module FaqChanges {
  import opened Strings
  import opened FaqText
  import opened FaqExtract

  datatype ChangeKind = New | Updated | Stale

  /** One row of the change log. */
  datatype Change = Change(itemId: nat, kind: ChangeKind, before: Option<string>, after: Option<string>)

  /** One FAQ item of the context; `hash` is the normalized question the
      table is unique on. */
  datatype Item = Item(id: nat, sourceId: nat, question: string, answer: string, hash: string, published: bool)

  /** The item table, the change log and the next id the table hands out. */
  datatype Snapshot = Snapshot(items: seq<Item>, log: seq<Change>, nextId: nat)

  /** One crawled source: its id and what fetching and extracting its page
      gave, or None when either threw. */
  datatype SourcePage = SourcePage(id: nat, pairs: Option<seq<Pair>>)

  /** The table's constraints: one item per key, one item per id, and every
      id below the next one to hand out. */
  predicate Valid(s: Snapshot) {
    && (forall k, l :: 0 <= k < l < |s.items| ==> s.items[k].hash != s.items[l].hash)
    && (forall k, l :: 0 <= k < l < |s.items| ==> s.items[k].id != s.items[l].id)
    && (forall k :: 0 <= k < |s.items| ==> s.items[k].id < s.nextId)
  }

  /** The position from `from` on of the item stored under `hash`, or -1:
      the `.eq("question_hash", ...)` lookup. */
  function FindHash(items: seq<Item>, hash: string, from: nat): (r: int)
    requires from <= |items|
    ensures r == -1 || (from <= r < |items| && items[r].hash == hash)
    ensures r == -1 ==> forall k :: from <= k < |items| ==> items[k].hash != hash
    decreases |items| - from
  {
    if from == |items| then -1
    else if items[from].hash == hash then from
    else FindHash(items, hash, from + 1)
  }

  // ---------------------------------------------------------------------
  // Upsert of one pair

  /** The store after one crawled pair upserted under `key`: insert, or
      overwrite question, answer and source and republish; with a NEW change
      for a new key and an UPDATED change for a different answer. */
  function Upsert(s: Snapshot, sourceId: nat, p: Pair, key: string): Snapshot {
    var i := FindHash(s.items, key, 0);
    if i < 0 then
      Snapshot(s.items + [Item(s.nextId, sourceId, p.question, p.answer, key, true)],
               s.log + [Change(s.nextId, New, None, Some(p.answer))],
               s.nextId + 1)
    else
      var prev := s.items[i];
      var rec := if prev.answer != p.answer then [Change(prev.id, Updated, Some(prev.answer), Some(p.answer))] else [];
      Snapshot(s.items[i := Item(prev.id, sourceId, p.question, p.answer, key, true)], s.log + rec, s.nextId)
  }

  /** An upsert keeps the table's constraints. */
  lemma UpsertValid(s: Snapshot, sourceId: nat, p: Pair, key: string)
    requires Valid(s)
    ensures Valid(Upsert(s, sourceId, p, key))
  {
    var i := FindHash(s.items, key, 0);
    var t := Upsert(s, sourceId, p, key);
    if i < 0 {
      forall k, l | 0 <= k < l < |t.items| ensures t.items[k].hash != t.items[l].hash {
        if l == |s.items| {
          assert t.items[k] == s.items[k];
        }
      }
    }
  }

  /** The classifier's record for one pair: a key not yet stored gives
      NEW with no before and the new answer after; a stored key whose answer
      differs gives UPDATED from the stored answer to the new one; the same
      answer gives nothing. Nothing already in the log changes. */
  lemma UpsertRecord(s: Snapshot, sourceId: nat, p: Pair, key: string)
    requires Valid(s)
    ensures var t := Upsert(s, sourceId, p, key);
      && ((forall k :: 0 <= k < |s.items| ==> s.items[k].hash != key) ==>
            t.log == s.log + [Change(s.nextId, New, None, Some(p.answer))])
      && (forall k :: 0 <= k < |s.items| && s.items[k].hash == key && s.items[k].answer != p.answer ==>
            t.log == s.log + [Change(s.items[k].id, Updated, Some(s.items[k].answer), Some(p.answer))])
      && (forall k :: 0 <= k < |s.items| && s.items[k].hash == key && s.items[k].answer == p.answer ==>
            t.log == s.log)
  {
    var i := FindHash(s.items, key, 0);
    assert i >= 0 ==> forall k :: 0 <= k < |s.items| && s.items[k].hash == key ==> k == i;
  }

  /** After an upsert the pair is stored, published, under its key, and it
      is the only item with that key; every other item is as it was, and
      no item is removed or moved. */
  lemma UpsertPublishes(s: Snapshot, sourceId: nat, p: Pair, key: string)
    requires Valid(s)
    ensures var t := Upsert(s, sourceId, p, key);
      && |s.items| <= |t.items| <= |s.items| + 1
      && (exists k :: 0 <= k < |t.items| && t.items[k] == Item(t.items[k].id, sourceId, p.question, p.answer, key, true))
      && (forall k :: 0 <= k < |t.items| && t.items[k].hash == key ==> t.items[k].published && t.items[k].answer == p.answer)
      && (forall k :: 0 <= k < |s.items| ==>
            t.items[k].hash == s.items[k].hash && t.items[k].id == s.items[k].id
            && (s.items[k].hash != key ==> t.items[k] == s.items[k]))
  {
    var i := FindHash(s.items, key, 0);
    var t := Upsert(s, sourceId, p, key);
    UpsertValid(s, sourceId, p, key);
    var j := if i < 0 then |s.items| else i;
    assert t.items[j].hash == key;
  }

  /** The store after the first `n` pairs of one source, one after the
      other, each under its key in `keys`. */
  function UpsertPairs(s: Snapshot, sourceId: nat, ps: seq<Pair>, keys: seq<string>, n: nat): Snapshot
    requires n <= |ps| == |keys|
  {
    if n == 0 then s else Upsert(UpsertPairs(s, sourceId, ps, keys, n - 1), sourceId, ps[n - 1], keys[n - 1])
  }

  // ---------------------------------------------------------------------
  // Stale sweep

  /** The item after the sweep: unpublished unless its key was crawled. */
  function SweepItem(it: Item, keys: set<string>): Item {
    if it.hash in keys then it else it.(published := false)
  }

  /** The STALE change of an item. */
  function StaleChange(it: Item): Change {
    Change(it.id, Stale, Some(it.answer), None)
  }

  /** The STALE changes for the first `n` items whose key was not crawled. */
  function StaleChanges(items: seq<Item>, keys: set<string>, n: nat): seq<Change>
    requires n <= |items|
  {
    if n == 0 then []
    else StaleChanges(items, keys, n - 1) + (if items[n - 1].hash in keys then [] else [StaleChange(items[n - 1])])
  }

  /** The store after the stale sweep with the crawled keys `keys`. */
  function Sweep(s: Snapshot, keys: set<string>): Snapshot {
    Snapshot(seq(|s.items|, k requires 0 <= k < |s.items| => SweepItem(s.items[k], keys)),
             s.log + StaleChanges(s.items, keys, |s.items|), s.nextId)
  }

  /** The STALE changes name exactly the items whose key was not crawled,
      each with its answer as before and nothing after. */
  lemma {:induction false} StaleChangesSpec(items: seq<Item>, keys: set<string>, n: nat)
    requires n <= |items|
    ensures forall c :: c in StaleChanges(items, keys, n) ==>
      exists k :: 0 <= k < n && items[k].hash !in keys && c == StaleChange(items[k])
    ensures forall k :: 0 <= k < n && items[k].hash !in keys ==>
      StaleChange(items[k]) in StaleChanges(items, keys, n)
  {
    if n > 0 {
      StaleChangesSpec(items, keys, n - 1);
    }
  }

  /** The sweep keeps the table's constraints, touches nothing but the
      published flag, and unpublishes exactly the items whose key was not
      crawled, whether or not they were published. */
  lemma SweepItems(s: Snapshot, keys: set<string>)
    requires Valid(s)
    ensures var t := Sweep(s, keys);
      && Valid(t)
      && |t.items| == |s.items|
      && (forall k :: 0 <= k < |s.items| ==>
            t.items[k].(published := true) == s.items[k].(published := true)
            && (t.items[k].published <==> s.items[k].published && s.items[k].hash in keys))
  {}

  /** The sweep appends to the log, and what it appends is one STALE change,
      with the answer before and nothing after, for each item whose key was
      not crawled, and nothing else. */
  lemma SweepLog(s: Snapshot, keys: set<string>)
    ensures var t := Sweep(s, keys);
      && s.log <= t.log
      && (forall c :: c in t.log[|s.log|..] ==>
            exists k :: 0 <= k < |s.items| && s.items[k].hash !in keys && c == StaleChange(s.items[k]))
      && (forall k :: 0 <= k < |s.items| && s.items[k].hash !in keys ==>
            StaleChange(s.items[k]) in t.log[|s.log|..])
  {
    var t := Sweep(s, keys);
    StaleChangesSpec(s.items, keys, |s.items|);
    assert t.log[|s.log|..] == StaleChanges(s.items, keys, |s.items|);
  }

  // ---------------------------------------------------------------------
  // The crawl

  /** The key a pair is stored under: its normalized question. */
  function PairKey(p: Pair): string {
    Normalize(p.question)
  }

  /** The pairs of the first `n` sources, in order (`allCrawledPairs`);
      sources that threw contribute nothing. */
  function CrawledPairs(sources: seq<SourcePage>, n: nat): seq<Pair>
    requires n <= |sources|
  {
    if n == 0 then []
    else CrawledPairs(sources, n - 1) + (if sources[n - 1].pairs.Some? then sources[n - 1].pairs.value else [])
  }

  /** `new Set(keys)` */
  function KeySet(keys: seq<string>): (r: set<string>)
    ensures forall h :: h in r <==> h in keys
  {
    set h | h in keys
  }

  /** The store after the upserts of the first `n` sources, each pair under
      `key` of it, and whether they all got through; the first source that
      throws ends the run. */
  function CrawlUpserts(s: Snapshot, sources: seq<SourcePage>, n: nat, key: Pair -> string): (Snapshot, bool)
    requires n <= |sources|
  {
    if n == 0 then (s, true)
    else
      var (t, ok) := CrawlUpserts(s, sources, n - 1, key);
      if !ok then (t, false)
      else match sources[n - 1].pairs
        case None => (t, false)
        case Some(ps) => (UpsertPairs(t, sources[n - 1].id, ps, Map(ps, key), |ps|), true)
  }

  /** The crawl: the upserts of every source, then, when none threw, the
      stale sweep over the keys of every crawled pair. */
  function Crawl(s: Snapshot, sources: seq<SourcePage>): (Snapshot, bool) {
    var (t, ok) := CrawlUpserts(s, sources, |sources|, PairKey);
    if ok then (Sweep(t, KeySet(Map(CrawledPairs(sources, |sources|), PairKey))), true) else (t, false)
  }

  /** Once a source has thrown, the run has failed for every longer prefix
      and the store no longer changes. */
  lemma {:induction false} CrawlStaysFailed(s: Snapshot, sources: seq<SourcePage>, k: nat, key: Pair -> string)
    requires k <= |sources| && !CrawlUpserts(s, sources, k, key).1
    ensures CrawlUpserts(s, sources, |sources|, key) == CrawlUpserts(s, sources, k, key)
    decreases |sources| - k
  {
    if k < |sources| {
      CrawlStaysFailed(s, sources, k + 1, key);
    }
  }

  /** Items keep their place, key and id, and none is unpublished. */
  predicate Extends(a: seq<Item>, b: seq<Item>) {
    && |a| <= |b|
    && forall k :: 0 <= k < |a| ==>
         b[k].hash == a[k].hash && b[k].id == a[k].id && (a[k].published ==> b[k].published)
  }

  /** The log only grows, and only by NEW and UPDATED changes. */
  predicate GrowsWithoutStale(a: seq<Change>, b: seq<Change>) {
    a <= b && forall k :: |a| <= k < |b| ==> b[k].kind != Stale
  }

  /** Some published item is stored under `key`. */
  predicate Stored(items: seq<Item>, key: string) {
    exists k :: 0 <= k < |items| && items[k].hash == key && items[k].published
  }

  /** One upsert extends the items, grows the log without STALE changes and
      stores its key, published. */
  lemma UpsertExtends(t: Snapshot, sourceId: nat, p: Pair, key: string)
    requires Valid(t)
    ensures var u := Upsert(t, sourceId, p, key);
      Extends(t.items, u.items) && GrowsWithoutStale(t.log, u.log) && Stored(u.items, key)
  {
    var i := FindHash(t.items, key, 0);
    var u := Upsert(t, sourceId, p, key);
    var j := if i < 0 then |t.items| else i;
    assert u.items[j].hash == key && u.items[j].published;
  }

  /** Both relations compose. */
  lemma ExtendsTrans(a: seq<Item>, b: seq<Item>, c: seq<Item>, la: seq<Change>, lb: seq<Change>, lc: seq<Change>)
    requires Extends(a, b) && Extends(b, c)
    requires GrowsWithoutStale(la, lb) && GrowsWithoutStale(lb, lc)
    ensures Extends(a, c) && GrowsWithoutStale(la, lc)
  {
    forall k | |la| <= k < |lc| ensures lc[k].kind != Stale {
      if k < |lb| {
        assert lc[k] == lb[k];
      }
    }
  }

  /** How the upserts of a run relate the store to the one before: the
      constraints hold, items are extended, the log grows without STALE
      changes, and every key upserted so far is stored. */
  predicate UpsertedFrom(s: Snapshot, t: Snapshot, keys: seq<string>) {
    && Valid(t)
    && Extends(s.items, t.items)
    && GrowsWithoutStale(s.log, t.log)
    && forall j :: 0 <= j < |keys| ==> Stored(t.items, keys[j])
  }

  /** One upsert extends `UpsertedFrom` by its key. */
  lemma UpsertedStep(s: Snapshot, t: Snapshot, done: seq<string>, sourceId: nat, p: Pair, key: string)
    requires UpsertedFrom(s, t, done)
    ensures UpsertedFrom(s, Upsert(t, sourceId, p, key), done + [key])
  {
    var u := Upsert(t, sourceId, p, key);
    UpsertValid(t, sourceId, p, key);
    UpsertExtends(t, sourceId, p, key);
    ExtendsTrans(s.items, t.items, u.items, s.log, t.log, u.log);
    forall j | 0 <= j < |done| ensures Stored(u.items, done[j]) {
      var k :| 0 <= k < |t.items| && t.items[k].hash == done[j] && t.items[k].published;
      assert u.items[k].hash == t.items[k].hash;
    }
  }

  /** The upserts of one source's pairs extend `UpsertedFrom` by their keys. */
  lemma {:induction false} UpsertPairsSpec(s: Snapshot, t: Snapshot, done: seq<string>, sourceId: nat,
                                           ps: seq<Pair>, keys: seq<string>, n: nat)
    requires n <= |ps| == |keys| && UpsertedFrom(s, t, done)
    ensures UpsertedFrom(s, UpsertPairs(t, sourceId, ps, keys, n), done + keys[..n])
  {
    if n > 0 {
      UpsertPairsSpec(s, t, done, sourceId, ps, keys, n - 1);
      UpsertedStep(s, UpsertPairs(t, sourceId, ps, keys, n - 1), done + keys[..n - 1], sourceId, ps[n - 1], keys[n - 1]);
      assert done + keys[..n - 1] + [keys[n - 1]] == done + keys[..n];
    }
  }

  /** The keys of two lists of pairs one after the other. */
  lemma MapConcat<A, B>(xs: seq<A>, ys: seq<A>, f: A -> B)
    ensures Map(xs + ys, f) == Map(xs, f) + Map(ys, f)
  {
    assert forall k :: 0 <= k < |xs| ==> (xs + ys)[k] == xs[k];
    assert forall k :: 0 <= k < |ys| ==> (xs + ys)[|xs| + k] == ys[k];
  }

  /** The upserts of the first `n` sources relate the store to the one
      before the run as `UpsertedFrom` says, over the keys of the sources
      that got through. */
  lemma {:induction false} CrawlUpsertsSpec(s: Snapshot, sources: seq<SourcePage>, n: nat, key: Pair -> string)
    requires n <= |sources| && Valid(s)
    ensures var (t, ok) := CrawlUpserts(s, sources, n, key);
      UpsertedFrom(s, t, if ok then Map(CrawledPairs(sources, n), key) else [])
  {
    if n == 0 {
      assert UpsertedFrom(s, s, []);
    } else {
      CrawlUpsertsSpec(s, sources, n - 1, key);
      var (t, ok) := CrawlUpserts(s, sources, n - 1, key);
      var prev := if ok then Map(CrawledPairs(sources, n - 1), key) else [];
      match sources[n - 1].pairs
      case None =>
        assert UpsertedFrom(s, t, []);
      case Some(ps) =>
        var keys := Map(ps, key);
        UpsertPairsSpec(s, t, prev, sources[n - 1].id, ps, keys, |ps|);
        assert keys[..|ps|] == keys;
        if ok {
          MapConcat(CrawledPairs(sources, n - 1), ps, key);
        } else {
          assert UpsertedFrom(s, t, []);
        }
    }
  }

  /** Sweeping with the keys that were just upserted leaves each item
      published exactly when its key is one of them, and every one of them
      stored. */
  lemma SweepAfterUpserts(s: Snapshot, u: Snapshot, ks: seq<string>)
    requires UpsertedFrom(s, u, ks)
    ensures var t := Sweep(u, KeySet(ks));
      && Valid(t)
      && u.log <= t.log
      && (forall k :: 0 <= k < |t.items| ==> (t.items[k].published <==> t.items[k].hash in KeySet(ks)))
      && (forall h :: h in KeySet(ks) ==> Stored(t.items, h))
  {
    var keys := KeySet(ks);
    SweepItems(u, keys);
    SweepLog(u, keys);
    UpsertedKeysPublished(s, u, ks);
    var t := Sweep(u, keys);
    forall h | h in keys ensures Stored(t.items, h) {
      var j :| 0 <= j < |ks| && ks[j] == h;
      var l :| 0 <= l < |u.items| && u.items[l].hash == h && u.items[l].published;
      assert t.items[l].published;
    }
  }

  /** Keys are unique, so an item under an upserted key is the one stored
      published. */
  lemma UpsertedKeysPublished(s: Snapshot, u: Snapshot, ks: seq<string>)
    requires UpsertedFrom(s, u, ks)
    ensures forall k :: 0 <= k < |u.items| && u.items[k].hash in ks ==> u.items[k].published
  {
    forall k | 0 <= k < |u.items| && u.items[k].hash in ks ensures u.items[k].published {
      var j :| 0 <= j < |ks| && ks[j] == u.items[k].hash;
      var l :| 0 <= l < |u.items| && u.items[l].hash == ks[j] && u.items[l].published;
    }
  }

  /** A crawl that gets through every source leaves each item published
      exactly when its key was crawled, and every crawled key is stored;
      the log only grows. */
  lemma CrawlSucceeds(s: Snapshot, sources: seq<SourcePage>)
    requires Valid(s) && Crawl(s, sources).1
    ensures var t := Crawl(s, sources).0;
      var keys := KeySet(Map(CrawledPairs(sources, |sources|), PairKey));
      && Valid(t)
      && s.log <= t.log
      && (forall k :: 0 <= k < |t.items| ==> (t.items[k].published <==> t.items[k].hash in keys))
      && (forall h :: h in keys ==> Stored(t.items, h))
  {
    var ks := Map(CrawledPairs(sources, |sources|), PairKey);
    var u := CrawlUpserts(s, sources, |sources|, PairKey).0;
    CrawlUpsertsSpec(s, sources, |sources|, PairKey);
    SweepAfterUpserts(s, u, ks);
  }

  /** A crawl in which a source throws sweeps nothing: no STALE change is
      logged and no item is unpublished. */
  lemma CrawlFails(s: Snapshot, sources: seq<SourcePage>)
    requires Valid(s) && !Crawl(s, sources).1
    ensures var t := Crawl(s, sources).0;
      Valid(t) && Extends(s.items, t.items) && GrowsWithoutStale(s.log, t.log)
  {
    CrawlUpsertsSpec(s, sources, |sources|, PairKey);
  }

  // ---------------------------------------------------------------------
  // The store

  /** The context's item table and change log, as the crawl updates them. */
  class FaqStore {
    var items: seq<Item>
    var log: seq<Change>
    var nextId: nat

    function Snap(): Snapshot
      reads this
    {
      Snapshot(items, log, nextId)
    }

    constructor (items0: seq<Item>, log0: seq<Change>, nextId0: nat)
      ensures Snap() == Snapshot(items0, log0, nextId0)
    {
      items := items0;
      log := log0;
      nextId := nextId0;
    }

    /** One pair of the crawl under its key `normalize(question)`: look up
        the stored item with the same key, upsert, and log NEW or UPDATED. */
    method UpsertPair(sourceId: nat, p: Pair, key: string)
      modifies this
      ensures Snap() == Upsert(old(Snap()), sourceId, p, key)
    {
      var i := FindHash(items, key, 0);
      if i < 0 {
        var id := nextId;
        items := items + [Item(id, sourceId, p.question, p.answer, key, true)];
        nextId := nextId + 1;
        log := log + [Change(id, New, None, Some(p.answer))];
      } else {
        var existing := items[i];
        items := items[i := Item(existing.id, sourceId, p.question, p.answer, key, true)];
        if existing.answer != p.answer {
          log := log + [Change(existing.id, Updated, Some(existing.answer), Some(p.answer))];
        }
      }
    }

    /** The pairs of one source, in order, each under its key. */
    method UpsertAll(sourceId: nat, ps: seq<Pair>, keys: seq<string>)
      requires |keys| == |ps|
      modifies this
      ensures Snap() == UpsertPairs(old(Snap()), sourceId, ps, keys, |ps|)
    {
      ghost var s := Snap();
      var n := 0;
      while n < |ps|
        invariant n <= |ps|
        invariant Snap() == UpsertPairs(s, sourceId, ps, keys, n)
      {
        UpsertPair(sourceId, ps[n], keys[n]);
        n := n + 1;
      }
    }

    /** The stale sweep: every item whose key is not in `keys` gets a STALE
        change and is unpublished. */
    method MarkStale(keys: set<string>)
      modifies this
      ensures Snap() == Sweep(old(Snap()), keys)
    {
      ghost var s := Snap();
      var i := 0;
      while i < |items|
        invariant i <= |items| == |s.items|
        invariant nextId == s.nextId
        invariant forall k :: 0 <= k < i ==> items[k] == SweepItem(s.items[k], keys)
        invariant forall k :: i <= k < |items| ==> items[k] == s.items[k]
        invariant log == s.log + StaleChanges(s.items, keys, i)
      {
        var item := items[i];
        if item.hash !in keys {
          log := log + [StaleChange(item)];
          items := items[i := item.(published := false)];
        }
        i := i + 1;
      }
      assert items == Sweep(s, keys).items;
    }

    /** The loop over the context's sources, each pair upserted under `key`
        of it; false when a source threw, which ends the loop. On success
        `all` is every crawled pair (`allCrawledPairs`). */
    method UpsertSources(sources: seq<SourcePage>, key: Pair -> string) returns (ok: bool, all: seq<Pair>)
      modifies this
      ensures (Snap(), ok) == CrawlUpserts(old(Snap()), sources, |sources|, key)
      ensures ok ==> all == CrawledPairs(sources, |sources|)
    {
      ghost var s := Snap();
      all := [];
      var n := 0;
      while n < |sources|
        invariant n <= |sources|
        invariant CrawlUpserts(s, sources, n, key) == (Snap(), true)
        invariant all == CrawledPairs(sources, n)
      {
        var source := sources[n];
        if source.pairs.None? {
          CrawlStaysFailed(s, sources, n + 1, key);
          return false, all;
        }
        var ps := source.pairs.value;
        UpsertAll(source.id, ps, Map(ps, key));
        all := all + ps;
        n := n + 1;
      }
      ok := true;
    }

    /** The crawl: the upserts under `normalize(question)`, then, when no
        source threw, the stale sweep over the crawled keys. */
    method CrawlSources(sources: seq<SourcePage>) returns (ok: bool)
      modifies this
      ensures (Snap(), ok) == Crawl(old(Snap()), sources)
    {
      var all;
      ok, all := UpsertSources(sources, PairKey);
      if ok {
        MarkStale(KeySet(Map(all, PairKey)));
      }
    }
  }
}

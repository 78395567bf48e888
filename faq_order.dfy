/** How the published items are presented: each item's badge is the kind
    of its most recent change, and the items are sorted by badge priority,
    then by their place in a curated list of questions, keeping the input
    order otherwise. */
module FaqOrder {
  import opened Strings
  import opened FaqChanges

  // ---------------------------------------------------------------------
  // Badges

  /** The kind of the first change for `id` in `changes`, which are read
      newest first: the item's most recent change. */
  function LatestKind(changes: seq<Change>, id: nat): (r: Option<ChangeKind>)
    ensures r.None? <==> forall k :: 0 <= k < |changes| ==> changes[k].itemId != id
    ensures r.Some? ==> exists k :: 0 <= k < |changes| && changes[k].itemId == id && changes[k].kind == r.value
                          && forall l :: 0 <= l < k ==> changes[l].itemId != id
  {
    if changes == [] then None
    else if changes[0].itemId == id then Some(changes[0].kind)
    else
      var r := LatestKind(changes[1..], id);
      assert forall k :: 0 <= k < |changes| - 1 ==> changes[1..][k] == changes[k + 1];
      r
  }

  /** The change map over the first `n` changes: an item is in it when one
      of them is its change, and maps to the first such change's kind. */
  ghost predicate IsChangeMap(m: map<nat, ChangeKind>, changes: seq<Change>, n: nat)
    requires n <= |changes|
  {
    forall id :: (id in m <==> LatestKind(changes[..n], id).Some?)
      && (id in m ==> m[id] == LatestKind(changes[..n], id).value)
  }

  /** Reading one more change adds its item unless the item is already mapped. */
  lemma LatestKindSnoc(changes: seq<Change>, n: nat, id: nat)
    requires n < |changes|
    ensures LatestKind(changes[..n + 1], id) ==
      if LatestKind(changes[..n], id).Some? then LatestKind(changes[..n], id)
      else if changes[n].itemId == id then Some(changes[n].kind) else None
  {
    var a := changes[..n];
    var b := changes[..n + 1];
    assert forall k :: 0 <= k < n ==> b[k] == a[k];
    var r := LatestKind(b, id);
    if r.Some? {
      var k :| 0 <= k < |b| && b[k].itemId == id && b[k].kind == r.value
        && forall l :: 0 <= l < k ==> b[l].itemId != id;
      if k < n {
        var q := LatestKind(a, id);
        var k' :| 0 <= k' < |a| && a[k'].itemId == id && a[k'].kind == q.value
          && forall l :: 0 <= l < k' ==> a[l].itemId != id;
        assert k == k';
      }
    }
  }

  /** The loop that fills `changeMap`: the first change seen for an item,
      the newest, decides. */
  method BuildChangeMap(changes: seq<Change>) returns (m: map<nat, ChangeKind>)
    ensures forall id :: id in m <==> LatestKind(changes, id).Some?
    ensures forall id :: id in m ==> m[id] == LatestKind(changes, id).value
  {
    m := map[];
    var n := 0;
    while n < |changes|
      invariant n <= |changes|
      invariant IsChangeMap(m, changes, n)
    {
      forall id ensures LatestKind(changes[..n + 1], id) ==
        if LatestKind(changes[..n], id).Some? then LatestKind(changes[..n], id)
        else if changes[n].itemId == id then Some(changes[n].kind) else None
      {
        LatestKindSnoc(changes, n, id);
      }
      var change := changes[n];
      if change.itemId !in m {
        m := m[change.itemId := change.kind];
      }
      n := n + 1;
    }
    assert changes[..n] == changes;
  }

  /** Read newest first, the log's latest change for an item is the last
      one appended for it. */
  lemma {:induction false} LatestIsLastAppended(log: seq<Change>, id: nat)
    ensures LatestKind(Reverse(log), id) ==
      if log == [] then None
      else if log[|log| - 1].itemId == id then Some(log[|log| - 1].kind)
      else LatestKind(Reverse(log[..|log| - 1]), id)
  {
    if log != [] {
      assert Reverse(log)[1..] == Reverse(log[..|log| - 1]);
    }
  }

  /** `changes` read newest first: the log, last change first. */
  function Reverse(log: seq<Change>): (r: seq<Change>)
    ensures |r| == |log|
    ensures forall k :: 0 <= k < |log| ==> r[k] == log[|log| - 1 - k]
  {
    if log == [] then [] else [log[|log| - 1]] + Reverse(log[..|log| - 1])
  }

  /** After a crawled pair was upserted, its item's badge is NEW when the
      key was new and UPDATED when the answer changed. */
  lemma UpsertBadge(s: Snapshot, sourceId: nat, p: FaqExtract.Pair, key: string)
    requires Valid(s)
    ensures var t := Upsert(s, sourceId, p, key);
      && ((forall k :: 0 <= k < |s.items| ==> s.items[k].hash != key) ==>
            LatestKind(Reverse(t.log), s.nextId) == Some(New))
      && (forall k :: 0 <= k < |s.items| && s.items[k].hash == key && s.items[k].answer != p.answer ==>
            LatestKind(Reverse(t.log), s.items[k].id) == Some(Updated))
  {
    var t := Upsert(s, sourceId, p, key);
    UpsertRecord(s, sourceId, p, key);
    if t.log != [] {
      LatestIsLastAppended(t.log, s.nextId);
      forall k | 0 <= k < |s.items| && s.items[k].hash == key && s.items[k].answer != p.answer
        ensures LatestKind(Reverse(t.log), s.items[k].id) == Some(Updated)
      {
        LatestIsLastAppended(t.log, s.items[k].id);
      }
    }
  }

  /** A published item as presented, with its badge. */
  datatype Shown = Shown(id: nat, question: string, answer: string, badge: Option<ChangeKind>)

  /** The badge of an item: the kind of its most recent change, or none. */
  function Badge(m: map<nat, ChangeKind>, id: nat): Option<ChangeKind> {
    if id in m then Some(m[id]) else None
  }

  // ---------------------------------------------------------------------
  // The comparator

  /** `getBadgePriority`: NEW, then UPDATED, then no badge, then STALE. */
  function Priority(badge: Option<ChangeKind>): (r: nat)
    ensures r <= 3
    ensures (r == 0 <==> badge == Some(New)) && (r == 1 <==> badge == Some(Updated))
    ensures (r == 2 <==> badge == None) && (r == 3 <==> badge == Some(Stale))
  {
    match badge
    case Some(New) => 0
    case Some(Updated) => 1
    case Some(Stale) => 3
    case None => 2
  }

  /** The curated order of questions. */
  const QuestionOrder: seq<string> := [
    "Hoe kan ik mijn bank koppelen?",
    "Zit er een vuilafstotende behandeling op de bank?",
    "Kunnen jullie mijn meubel herstofferen?",
    "Ik heb een klacht/service melding op mijn meubel",
    "Wat kan ik doen aan een kraak in mijn bank?",
    "Hoe onderhoud ik mijn meubel?",
    "Hoe kan ik de doppen of viltdoppen van mijn eetkamerstoelen vervangen?",
    "Ik heb een vlek in mijn meubel. Hoe kan ik dit behandelen?",
    "Hoe verhuis ik mijn bank?",
    "Wat is de actuele levertijd?"
  ]

  /** A question matches a curated one when, both lower-cased, either
      contains the other. */
  predicate MatchesCurated(question: string, curated: string) {
    Contains(Lower(question), Lower(curated)) || Contains(Lower(curated), Lower(question))
  }

  /** `questionOrder.findIndex(...)` from index `j` on: the first curated
      question that matches, or -1. */
  function CuratedIndex(question: string, j: nat): (r: int)
    requires j <= |QuestionOrder|
    ensures r == -1 || (j <= r < |QuestionOrder| && MatchesCurated(question, QuestionOrder[r]))
    ensures forall k :: j <= k < |QuestionOrder| && (r == -1 || k < r) ==> !MatchesCurated(question, QuestionOrder[k])
    decreases |QuestionOrder| - j
  {
    if j == |QuestionOrder| then -1
    else if MatchesCurated(question, QuestionOrder[j]) then j
    else CuratedIndex(question, j + 1)
  }

  /** The sort comparator: negative when `a` goes first, positive when `b`
      does, zero when the two tie. */
  function Compare(a: Shown, b: Shown): int {
    var pa := Priority(a.badge);
    var pb := Priority(b.badge);
    if pa != pb then pa - pb
    else
      var ia := CuratedIndex(a.question, 0);
      var ib := CuratedIndex(b.question, 0);
      if ia != -1 && ib != -1 then ia - ib
      else if ia != -1 then -1
      else if ib != -1 then 1
      else 0
  }

  /** The sort key the comparator orders by: the badge priority, then the
      curated position, with questions outside the list after all of them. */
  function Rank(x: Shown): nat {
    var i := CuratedIndex(x.question, 0);
    Priority(x.badge) * (|QuestionOrder| + 1) + (if i == -1 then |QuestionOrder| else i)
  }

  /** The comparator orders exactly as the key: its sign is the sign of the
      difference of the keys, so it is a consistent total preorder. */
  lemma CompareIsRank(a: Shown, b: Shown)
    ensures Compare(a, b) < 0 <==> Rank(a) < Rank(b)
    ensures Compare(a, b) == 0 <==> Rank(a) == Rank(b)
    ensures Compare(a, b) > 0 <==> Rank(a) > Rank(b)
  {
    var ia := CuratedIndex(a.question, 0);
    var ib := CuratedIndex(b.question, 0);
    assert -1 <= ia < |QuestionOrder| && -1 <= ib < |QuestionOrder|;
  }

  // ---------------------------------------------------------------------
  // The stable sort

  /** `x` placed into `s` after every element whose key is not greater. */
  function Insert<T>(s: seq<T>, x: T, key: T -> nat): (r: seq<T>)
    ensures |r| == |s| + 1
  {
    if s == [] || key(s[|s| - 1]) <= key(x) then s + [x]
    else Insert(s[..|s| - 1], x, key) + [s[|s| - 1]]
  }

  /** The first `n` elements of `xs` sorted by insertion. */
  function SortedPrefix<T>(xs: seq<T>, n: nat, key: T -> nat): (r: seq<T>)
    requires n <= |xs|
    ensures |r| == n
  {
    if n == 0 then [] else Insert(SortedPrefix(xs, n - 1, key), xs[n - 1], key)
  }

  /** A stable sort of `xs` by `key`. */
  function SortBy<T>(xs: seq<T>, key: T -> nat): seq<T> {
    SortedPrefix(xs, |xs|, key)
  }

  predicate SortedBy<T>(s: seq<T>, key: T -> nat) {
    forall k, l :: 0 <= k < l < |s| ==> key(s[k]) <= key(s[l])
  }

  /** The elements of `s` with key `r`, in order. */
  function WithKey<T>(s: seq<T>, key: T -> nat, r: nat): seq<T> {
    if s == [] then []
    else WithKey(s[..|s| - 1], key, r) + (if key(s[|s| - 1]) == r then [s[|s| - 1]] else [])
  }

  /** Inserting adds `x` and loses nothing. */
  lemma {:induction false} InsertPermutes<T>(s: seq<T>, x: T, key: T -> nat)
    ensures multiset(Insert(s, x, key)) == multiset(s) + multiset{x}
    decreases |s|
  {
    if s != [] && key(s[|s| - 1]) > key(x) {
      var init := s[..|s| - 1];
      assert s == init + [s[|s| - 1]];
      InsertPermutes(init, x, key);
    }
  }

  /** Inserting into a sorted sequence keeps it sorted. */
  lemma {:induction false} InsertSorted<T>(s: seq<T>, x: T, key: T -> nat)
    requires SortedBy(s, key)
    ensures SortedBy(Insert(s, x, key), key)
    decreases |s|
  {
    if s != [] && key(s[|s| - 1]) > key(x) {
      var init := s[..|s| - 1];
      var last := s[|s| - 1];
      assert s == init + [last];
      assert SortedBy(init, key);
      InsertSorted(init, x, key);
      InsertPermutes(init, x, key);
      var r := Insert(init, x, key);
      forall k | 0 <= k < |r| ensures key(r[k]) <= key(last) {
        assert r[k] in multiset(r);
        if r[k] != x {
          assert r[k] in multiset(init);
          var l :| 0 <= l < |init| && init[l] == r[k];
          assert s[l] == init[l];
        }
      }
      assert Insert(s, x, key) == r + [last];
      SortedSnoc(r, last, key);
    }
  }

  lemma SortedSnoc<T>(r: seq<T>, last: T, key: T -> nat)
    requires SortedBy(r, key)
    requires forall k :: 0 <= k < |r| ==> key(r[k]) <= key(last)
    ensures SortedBy(r + [last], key)
  {
    forall k, l | 0 <= k < l < |r| + 1 ensures key((r + [last])[k]) <= key((r + [last])[l]) {
      if l < |r| {
        assert (r + [last])[k] == r[k] && (r + [last])[l] == r[l];
      }
    }
  }

  lemma {:induction false} WithKeyConcat<T>(a: seq<T>, b: seq<T>, key: T -> nat, r: nat)
    ensures WithKey(a + b, key, r) == WithKey(a, key, r) + WithKey(b, key, r)
    decreases |b|
  {
    if b != [] {
      assert (a + b)[..|a + b| - 1] == a + b[..|b| - 1];
      WithKeyConcat(a, b[..|b| - 1], key, r);
    } else {
      assert a + b == a;
    }
  }

  /** Inserting `x` adds it after the elements with its key. */
  lemma {:induction false} InsertKeepsKeyOrder<T>(s: seq<T>, x: T, key: T -> nat, r: nat)
    ensures WithKey(Insert(s, x, key), key, r) == WithKey(s, key, r) + (if key(x) == r then [x] else [])
    decreases |s|
  {
    if s != [] && key(s[|s| - 1]) > key(x) {
      var init := s[..|s| - 1];
      var last := s[|s| - 1];
      InsertKeepsKeyOrder(init, x, key, r);
      WithKeyConcat(Insert(init, x, key), [last], key, r);
      assert s == init + [last];
      WithKeyConcat(init, [last], key, r);
    } else {
      WithKeyConcat(s, [x], key, r);
    }
  }

  /** The sorted prefix is ordered by key. */
  lemma {:induction false} SortedPrefixSorted<T>(xs: seq<T>, n: nat, key: T -> nat)
    requires n <= |xs|
    ensures SortedBy(SortedPrefix(xs, n, key), key)
  {
    if n > 0 {
      SortedPrefixSorted(xs, n - 1, key);
      InsertSorted(SortedPrefix(xs, n - 1, key), xs[n - 1], key);
    }
  }

  /** The sorted prefix holds the elements of the prefix. */
  lemma {:induction false} SortedPrefixPermutes<T>(xs: seq<T>, n: nat, key: T -> nat)
    requires n <= |xs|
    ensures multiset(SortedPrefix(xs, n, key)) == multiset(xs[..n])
  {
    if n > 0 {
      PrefixSnoc(xs, n);
      SortedPrefixPermutes(xs, n - 1, key);
      InsertPermutes(SortedPrefix(xs, n - 1, key), xs[n - 1], key);
    }
  }

  lemma PrefixSnoc<T>(xs: seq<T>, n: nat)
    requires 0 < n <= |xs|
    ensures multiset(xs[..n]) == multiset(xs[..n - 1]) + multiset{xs[n - 1]}
  {
    assert xs[..n] == xs[..n - 1] + [xs[n - 1]];
  }

  /** Elements with equal keys keep their input order. */
  lemma {:induction false} SortedPrefixStable<T>(xs: seq<T>, n: nat, key: T -> nat, r: nat)
    requires n <= |xs|
    ensures WithKey(SortedPrefix(xs, n, key), key, r) == WithKey(xs[..n], key, r)
  {
    if n > 0 {
      SortedPrefixStable(xs, n - 1, key, r);
      InsertKeepsKeyOrder(SortedPrefix(xs, n - 1, key), xs[n - 1], key, r);
      assert xs[..n][..n - 1] == xs[..n - 1];
    }
  }

  /** The sort's result is ordered by key, is a permutation of the input,
      and keeps the input order among elements with equal keys. */
  lemma SortByCorrect<T>(xs: seq<T>, key: T -> nat)
    ensures SortedBy(SortBy(xs, key), key)
    ensures multiset(SortBy(xs, key)) == multiset(xs)
    ensures forall r: nat :: WithKey(SortBy(xs, key), key, r) == WithKey(xs, key, r)
  {
    SortedPrefixSorted(xs, |xs|, key);
    SortedPrefixPermutes(xs, |xs|, key);
    assert xs[..|xs|] == xs;
    forall r: nat ensures WithKey(SortBy(xs, key), key, r) == WithKey(xs, key, r) {
      SortedPrefixStable(xs, |xs|, key, r);
    }
  }

  /** Where insertion puts `x`: after the first `j` elements, when those
      that follow all go after `x` and the one before it does not. */
  lemma {:induction false} InsertAt<T>(s: seq<T>, x: T, key: T -> nat, j: nat)
    requires j <= |s| && (j == 0 || key(s[j - 1]) <= key(x))
    requires forall k :: j <= k < |s| ==> key(s[k]) > key(x)
    ensures Insert(s, x, key) == s[..j] + [x] + s[j..]
    decreases |s|
  {
    if j < |s| {
      var init := s[..|s| - 1];
      InsertAt(init, x, key, j);
      assert init[..j] == s[..j] && init[j..] + [s[|s| - 1]] == s[j..];
    } else {
      assert s[..j] == s;
    }
  }

  /** The insertion step on `a[..i + 1]`: `a[i]` moves left past every
      element the comparator puts after it. */
  method InsertInto<T(!new)>(a: array<T>, i: nat, cmp: (T, T) -> int, key: T -> nat)
    requires i < a.Length
    requires forall y, z :: cmp(y, z) > 0 <==> key(y) > key(z)
    modifies a
    ensures a[..i + 1] == Insert(old(a[..i]), old(a[i]), key)
    ensures a[i + 1..] == old(a[i + 1..])
  {
    ghost var s := a[..i];
    var x := a[i];
    var j := i;
    while j > 0 && cmp(a[j - 1], x) > 0
      invariant 0 <= j <= i
      invariant a[..j] == s[..j]
      invariant forall k :: j < k <= i ==> a[k] == s[k - 1]
      invariant a[i + 1..] == old(a[i + 1..])
      invariant forall k :: j <= k < i ==> key(s[k]) > key(x)
    {
      a[j] := a[j - 1];
      j := j - 1;
    }
    InsertAt(s, x, key, j);
    a[j] := x;
    assert a[..i + 1] == s[..j] + [x] + s[j..];
  }

  /** Insertion sort with a comparator that orders by `key`: a stable sort. */
  method InsertionSort<T(!new)>(a: array<T>, cmp: (T, T) -> int, key: T -> nat)
    requires forall y, z :: cmp(y, z) > 0 <==> key(y) > key(z)
    modifies a
    ensures a[..] == SortBy(old(a[..]), key)
  {
    ghost var xs := a[..];
    var i := 0;
    while i < a.Length
      invariant i <= a.Length
      invariant a[..i] == SortedPrefix(xs, i, key)
      invariant a[i..] == xs[i..]
    {
      InsertInto(a, i, cmp, key);
      i := i + 1;
    }
    assert a[..] == a[..a.Length];
  }

  /** The order of presentation: `itemsWithBadges.sort(compare)`, a stable
      sort by `Rank`. */
  function SortSpec(xs: seq<Shown>): seq<Shown> {
    SortBy(xs, Rank)
  }

  /** `itemsWithBadges.sort(compare)`, in place. */
  method SortShown(a: array<Shown>)
    modifies a
    ensures a[..] == SortSpec(old(a[..]))
  {
    forall y, z ensures Compare(y, z) > 0 <==> Rank(y) > Rank(z) {
      CompareIsRank(y, z);
    }
    InsertionSort(a, Compare, Rank);
  }

  /** The items query, `.eq("is_published", true)`: the stored items that
      are published, in stored order. */
  function Published(items: seq<Item>): (r: seq<Item>)
    ensures |r| <= |items|
  {
    if items == [] then []
    else (if items[0].published then [items[0]] else []) + Published(items[1..])
  }

  /** The query returns exactly the published items. */
  lemma {:induction false} PublishedSpec(items: seq<Item>)
    ensures forall it :: it in Published(items) <==> it in items && it.published
  {
    if items != [] {
      PublishedSpec(items[1..]);
      assert items == [items[0]] + items[1..];
    }
  }

  /** An item as presented: its id, question and answer, with the kind of
      its most recent change in `changes` (newest first) as its badge. */
  function ShownAs(it: Item, changes: seq<Change>): Shown {
    Shown(it.id, it.question, it.answer, LatestKind(changes, it.id))
  }

  /** `items.map(item => ({...item, badge}))`, with each badge the kind
      of the item's most recent change in `changes` (newest first). */
  function WithBadges(items: seq<Item>, changes: seq<Change>): (r: seq<Shown>)
    ensures |r| == |items|
  {
    seq(|items|, k requires 0 <= k < |items| => ShownAs(items[k], changes))
  }

  /** The presented list holds exactly the published items, each once per
      row, with its own id, question and answer and the kind of its latest
      change as its badge; it is sorted by the comparator's key, and items
      with the same key keep the order of the query. */
  lemma PresentedItems(items: seq<Item>, changes: seq<Change>)
    ensures var shown := SortSpec(WithBadges(Published(items), changes));
      && |shown| == |Published(items)|
      && SortedBy(shown, Rank)
      && (forall x :: x in shown ==>
            x.badge == LatestKind(changes, x.id)
            && exists it :: it in items && it.published && x == ShownAs(it, changes))
      && (forall it :: it in items && it.published ==> ShownAs(it, changes) in shown)
      && (forall r: nat :: WithKey(shown, Rank, r) == WithKey(WithBadges(Published(items), changes), Rank, r))
  {
    PresentedBy(items, changes, Rank);
  }

  /** `PresentedItems` for any sort key. */
  lemma PresentedBy(items: seq<Item>, changes: seq<Change>, key: Shown -> nat)
    ensures var shown := SortBy(WithBadges(Published(items), changes), key);
      && |shown| == |Published(items)|
      && SortedBy(shown, key)
      && (forall x :: x in shown ==>
            x.badge == LatestKind(changes, x.id)
            && exists it :: it in items && it.published && x == ShownAs(it, changes))
      && (forall it :: it in items && it.published ==> ShownAs(it, changes) in shown)
      && (forall r: nat :: WithKey(shown, key, r) == WithKey(WithBadges(Published(items), changes), key, r))
  {
    var ps := Published(items);
    var wb := WithBadges(ps, changes);
    var shown := SortBy(wb, key);
    PublishedSpec(items);
    SortByCorrect(wb, key);
    assert |shown| == |multiset(shown)| == |multiset(wb)| == |wb|;
    forall x | x in shown
      ensures x.badge == LatestKind(changes, x.id)
      ensures exists it :: it in items && it.published && x == ShownAs(it, changes)
    {
      assert x in multiset(wb);
      var k :| 0 <= k < |wb| && wb[k] == x;
      assert ps[k] in ps;
    }
    forall it | it in items && it.published ensures ShownAs(it, changes) in shown {
      var k :| 0 <= k < |ps| && ps[k] == it;
      assert wb[k] == ShownAs(it, changes);
      assert wb[k] in multiset(shown);
    }
  }

  /** The items read from the context, badged from the changes read
      newest first, in presentation order. */
  method PresentItems(items: seq<Item>, changes: seq<Change>) returns (shown: seq<Shown>)
    ensures shown == SortSpec(WithBadges(Published(items), changes))
  {
    var rows := Published(items);
    var m := BuildChangeMap(changes);
    var withBadges := seq(|rows|, k requires 0 <= k < |rows| =>
      Shown(rows[k].id, rows[k].question, rows[k].answer, Badge(m, rows[k].id)));
    assert withBadges == WithBadges(rows, changes);
    var a := new Shown[|withBadges|](k requires 0 <= k < |withBadges| => withBadges[k]);
    assert a[..] == withBadges;
    SortShown(a);
    shown := a[..];
  }
}

/** Which estimates the replay of an iteration comes upon, and so which answers validation may give. */
module EstimatesMet {
  import opened Bytes
  import opened VersionedItem
  import opened MergeIterator
  import opened MultiVersion
  import opened Execution
  import opened StillScan
  import opened Serializability
  import opened Schedules
  import opened Validation

  // ----- Positions of a replay -----

  /** What does not change in a replay: both sides in full, the tracked writes, and what every key answers. */
  datatype Scene = Scene(asc: bool, parent: seq<Entry>, cache: seq<Key>, ws: WriteSet, src: Key -> Source,
                         val: Key -> Option<Bytes>)

  ghost predicate InOrder(x: Scene) {
    Ordered(x.asc, EntryKeys(x.parent)) && Ordered(x.asc, x.cache)
  }

  /** What is passed on one side lies before what is ahead on the other. */
  ghost predicate Place(x: Scene, parent: seq<Entry>, cache: seq<Key>) {
    && InOrder(x) && Suffix(parent, x.parent) && Suffix(cache, x.cache)
    && (forall i :: 0 <= i < |x.parent| - |parent| && cache != [] ==> Before(x.asc, x.parent[i].key, cache[0]))
    && (forall j :: 0 <= j < |x.cache| - |cache| && parent != [] ==> Before(x.asc, x.cache[j], parent[0].key))
  }

  /** Fetched are the passed keys that the tracked writes do not answer, and perhaps the current one. */
  ghost predicate Fetched(x: Scene, cache: seq<Key>, rs: ReadSet, head: bool) {
    && InOrder(x) && Suffix(cache, x.cache) && Answers(x.ws, rs, x.src, x.val)
    && (forall c :: c in rs ==> c in x.cache && c !in x.ws)
    && (forall j :: 0 <= j < |x.cache| - |cache| ==> x.cache[j] in x.ws || x.cache[j] in rs)
    && (cache != [] && cache[0] !in x.ws ==> (cache[0] in rs <==> head))
    && (forall j :: 1 <= j < |cache| ==> cache[j] !in rs)
  }

  lemma PlaceTail(x: Scene, parent: seq<Entry>, cache: seq<Key>)
    requires Place(x, parent, cache)
    ensures Ordered(x.asc, EntryKeys(parent)) && Ordered(x.asc, cache)
  {
    var n := |x.parent| - |parent|;
    forall i, j | 0 <= i < j < |parent| ensures Before(x.asc, EntryKeys(parent)[i], EntryKeys(parent)[j]) {
      assert EntryKeys(parent)[i] == EntryKeys(x.parent)[n + i] && EntryKeys(parent)[j] == EntryKeys(x.parent)[n + j];
    }
  }

  /** Passing a key of the cache side that lies before the parent's. */
  lemma PassCache(x: Scene, parent: seq<Entry>, cache: seq<Key>)
    requires Place(x, parent, cache) && cache != [] && (parent == [] || Before(x.asc, cache[0], parent[0].key))
    ensures Place(x, parent, cache[1..]) && cache[0] !in EntryKeys(x.parent)
  {
    PlaceTail(x, parent, cache);
    var n := |x.parent| - |parent|;
    forall i | 0 <= i < |x.parent| ensures x.parent[i].key != cache[0] {
      BeforeNotSelf(x.asc, cache[0]);
      if i >= n { assert x.parent[i] == parent[i - n]; HeadsOrdered(x.asc, cache[0], EntryKeys(parent)); }
      if i >= n { assert EntryKeys(parent)[i - n] == x.parent[i].key; }
    }
    if |cache| > 1 {
      forall i | 0 <= i < n ensures Before(x.asc, x.parent[i].key, cache[1]) {
        BeforeTransitive(x.asc, x.parent[i].key, cache[0], cache[1]);
      }
    }
  }

  /** Passing a key of both sides. */
  lemma PassBoth(x: Scene, parent: seq<Entry>, cache: seq<Key>)
    requires Place(x, parent, cache) && parent != [] && cache != [] && parent[0].key == cache[0]
    ensures Place(x, parent[1..], cache[1..]) && cache[0] in EntryKeys(x.parent)
  {
    PlaceTail(x, parent, cache);
    var n, m := |x.parent| - |parent|, |x.cache| - |cache|;
    assert x.parent[n] == parent[0] && EntryKeys(x.parent)[n] == cache[0] && x.cache[m] == cache[0];
    if |cache| > 1 {
      forall i | 0 <= i < n ensures Before(x.asc, x.parent[i].key, cache[1]) {
        BeforeTransitive(x.asc, x.parent[i].key, cache[0], cache[1]);
      }
    }
    if |parent| > 1 {
      assert Before(x.asc, EntryKeys(parent)[0], EntryKeys(parent)[1]);
      forall j | 0 <= j < m ensures Before(x.asc, x.cache[j], parent[1].key) {
        BeforeTransitive(x.asc, x.cache[j], parent[0].key, parent[1].key);
      }
    }
  }

  /** Passing a key of the parent side that lies before the cache's. */
  lemma PassParent(x: Scene, parent: seq<Entry>, cache: seq<Key>)
    requires Place(x, parent, cache) && parent != [] && (cache == [] || Before(x.asc, parent[0].key, cache[0]))
    ensures Place(x, parent[1..], cache)
  {
    PlaceTail(x, parent, cache);
    var n, m := |x.parent| - |parent|, |x.cache| - |cache|;
    assert x.parent[n] == parent[0];
    if |parent| > 1 {
      assert Before(x.asc, EntryKeys(parent)[0], EntryKeys(parent)[1]);
      forall j | 0 <= j < m ensures Before(x.asc, x.cache[j], parent[1].key) {
        BeforeTransitive(x.asc, x.cache[j], parent[0].key, parent[1].key);
      }
    }
  }

  lemma FetchHead(x: Scene, cache: seq<Key>, rs: ReadSet, head: bool)
    requires Fetched(x, cache, rs, head) && cache != []
    ensures var r := Read(x.ws, rs, x.src, cache[0]);
            r.Value? && r.value == x.val(cache[0]) && Fetched(x, cache, r.rs, true)
  {
    ReadAnswers(x.ws, rs, x.src, x.val, cache[0]);
    ReadKeys(x.ws, rs, x.src, cache[0]);
    hide Read, Answers;
    var n := |x.cache| - |cache|;
    assert x.cache[n] == cache[0];
    forall j | 1 <= j < |cache| ensures cache[j] != cache[0] {
      assert x.cache[n + j] == cache[j] && Before(x.asc, x.cache[n], x.cache[n + j]);
      BeforeNotSelf(x.asc, cache[0]);
    }
  }

  lemma ReadKeys(ws: WriteSet, rs: ReadSet, src: Key -> Source, k: Key)
    requires Read(ws, rs, src, k).Value?
    ensures var r := Read(ws, rs, src, k);
            if k in ws then r.rs == rs else k in r.rs && r.rs.Keys == rs.Keys + {k}
  {
  }

  lemma PassFetched(x: Scene, cache: seq<Key>, rs: ReadSet)
    requires Fetched(x, cache, rs, true) && cache != []
    ensures Fetched(x, cache[1..], rs, false)
  {
    hide Answers;
    assert x.cache[|x.cache| - |cache|] == cache[0];
  }

  // ----- Skipping -----

  /** The key before this one is deleted and not in the parent: then skipping it fetches this one as well. */
  ghost predicate Peeks(x: Scene, n: nat) {
    0 < n < |x.cache| && x.val(x.cache[n - 1]).None? && x.cache[n - 1] !in EntryKeys(x.parent)
  }

  ghost predicate PeeksAt(x: Scene, cache: seq<Key>) {
    |cache| <= |x.cache| && Peeks(x, |x.cache| - |cache|)
  }

  /** Before a skip. */
  ghost predicate Waits(x: Scene, parent: seq<Entry>, cache: seq<Key>, rs: ReadSet) {
    Place(x, parent, cache) && Fetched(x, cache, rs, PeeksAt(x, cache))
  }

  /** After one. */
  ghost predicate Stands(x: Scene, parent: seq<Entry>, cache: seq<Key>, rs: ReadSet) {
    Place(x, parent, cache) && Fetched(x, cache, rs, PeeksAt(x, cache) || FromCache(x.asc, parent, cache))
  }

  lemma {:induction false} SkipDeletesStands(x: Scene, parent: seq<Entry>, cache: seq<Key>, until: Option<Key>,
                                             rs: ReadSet, head: bool)
    requires Place(x, parent, cache) && Fetched(x, cache, rs, head)
    requires until == if parent == [] then None else Some(parent[0].key)
    ensures var d := SkipDeletes(x.asc, cache, until, x.ws, rs, x.src);
            && d.DeletesAt? && Place(x, parent, d.cache) && Fetched(x, d.cache, d.rs, true)
            && (PeeksAt(x, cache) ==> PeeksAt(x, d.cache) || d.cache == [])
    decreases |cache|
  {
    hide Place, Fetched, Read, Before;
    if cache == [] {
      AnyHead(x, rs, head);
    } else {
      FetchHead(x, cache, rs, head);
      var r := Read(x.ws, rs, x.src, cache[0]);
      if r.value.None? && (until.None? || Before(x.asc, cache[0], until.value)) {
        PassCache(x, parent, cache);
        PassFetched(x, cache, r.rs);
        PeeksNext(x, parent, cache);
        SkipDeletesStands(x, parent, cache[1..], until, r.rs, false);
      }
    }
  }

  lemma PeeksNext(x: Scene, parent: seq<Entry>, cache: seq<Key>)
    requires Place(x, parent, cache) && cache != []
    ensures PeeksAt(x, cache[1..]) <==> |cache| > 1 && x.val(cache[0]).None? && cache[0] !in EntryKeys(x.parent)
  {
    assert x.cache[|x.cache| - |cache|] == cache[0];
  }

  function SkipFrom(x: Scene, parent: seq<Entry>, cache: seq<Key>, rs: ReadSet): Skip {
    SkipUntilExists(x.asc, parent, cache, x.ws, rs, x.src)
  }

  lemma {:induction false} SkipStands(x: Scene, parent: seq<Entry>, cache: seq<Key>, rs: ReadSet)
    requires Waits(x, parent, cache, rs)
    ensures var s := SkipFrom(x, parent, cache, rs); s.SkipAt? && Stands(x, s.parent, s.cache, s.rs)
    decreases |parent| + |cache|
  {
    hide Place, Fetched, Read, Before, SkipDeletes, PeeksAt;
    var s := SkipFrom(x, parent, cache, rs);
    if parent == [] {
      SkipDeletesStands(x, parent, cache, None, rs, PeeksAt(x, cache));
      if s.cache == [] { AnyHead(x, s.rs, true); }
    } else if cache != [] && !Before(x.asc, parent[0].key, cache[0]) {
      FetchHead(x, cache, rs, PeeksAt(x, cache));
      var r := Read(x.ws, rs, x.src, cache[0]);
      if r.value.None? {
        PassFetched(x, cache, r.rs);
        PeeksNext(x, parent, cache);
        if parent[0].key == cache[0] {
          PassBoth(x, parent, cache);
          SkipStands(x, parent[1..], cache[1..], r.rs);
        } else {
          SkipDeletedHead(x, parent, cache, r.rs);
          var d := SkipDeletes(x.asc, cache[1..], Some(parent[0].key), x.ws, r.rs, x.src);
          SkipStands(x, parent, d.cache, d.rs);
        }
      }
    }
  }

  /** A deletion before the parent's key: what the skip stops at has been fetched. */
  lemma SkipDeletedHead(x: Scene, parent: seq<Entry>, cache: seq<Key>, rs: ReadSet)
    requires Place(x, parent, cache) && parent != [] && cache != [] && Fetched(x, cache[1..], rs, false)
    requires !Before(x.asc, parent[0].key, cache[0]) && parent[0].key != cache[0] && x.val(cache[0]).None?
    ensures var d := SkipDeletes(x.asc, cache[1..], Some(parent[0].key), x.ws, rs, x.src);
            d.DeletesAt? && Waits(x, parent, d.cache, d.rs)
  {
    hide Fetched, Before, SkipDeletes;
    BeforeTotal(x.asc, parent[0].key, cache[0]);
    PassCache(x, parent, cache);
    PeeksNext(x, parent, cache);
    SkipDeletesStands(x, parent, cache[1..], Some(parent[0].key), rs, false);
    var d := SkipDeletes(x.asc, cache[1..], Some(parent[0].key), x.ws, rs, x.src);
    if d.cache == [] { AnyHead(x, d.rs, true); }
  }

  lemma AnyHead(x: Scene, rs: ReadSet, head: bool)
    requires Fetched(x, [], rs, head)
    ensures Fetched(x, [], rs, true) && Fetched(x, [], rs, false)
  {
  }

  /** Advancing past a key with a value. */
  lemma AdvanceWaits(x: Scene, parent: seq<Entry>, cache: seq<Key>, rs: ReadSet)
    requires Stands(x, parent, cache, rs) && HeadLives(x.asc, parent, cache, x.val)
    ensures Waits(x, ParentAfter(x.asc, parent, cache), CacheAfter(x.asc, parent, cache), rs)
  {
    hide Place, Fetched, Before, PeeksAt;
    if FromCache(x.asc, parent, cache) {
      PassFetched(x, cache, rs);
      PeeksNext(x, parent, cache);
      if parent != [] { BeforeTotal(x.asc, parent[0].key, cache[0]); }
      if parent != [] && parent[0].key == cache[0] { PassBoth(x, parent, cache); } else { PassCache(x, parent, cache); }
    } else {
      PassParent(x, parent, cache);
    }
  }

  // ----- What an accepted replay has fetched -----

  /** A replay up to e gets as far as the key, or as one before it that makes it look one further. */
  ghost predicate LooksAt(x: Scene, e: Option<Key>, j: nat)
    requires j < |x.cache|
  {
    e.None? || !Before(x.asc, e.value, x.cache[j]) || (Peeks(x, j) && !Before(x.asc, e.value, x.cache[j - 1]))
  }

  ghost predicate FetchedExactly(x: Scene, e: Option<Key>, rs: ReadSet) {
    forall j :: 0 <= j < |x.cache| && x.cache[j] !in x.ws ==> (x.cache[j] in rs <==> LooksAt(x, e, j))
  }

  ghost predicate FetchedWithin(x: Scene, rs: ReadSet) {
    forall c :: c in rs ==> c in x.cache && c !in x.ws
  }

  lemma ExactAtStop(x: Scene, parent: seq<Entry>, cache: seq<Key>, rs: ReadSet)
    requires Stands(x, parent, cache, rs) && HeadLives(x.asc, parent, cache, x.val)
    ensures FetchedExactly(x, Some(HeadKey(x.asc, parent, cache)), rs)
  {
    var e, n := HeadKey(x.asc, parent, cache), |x.cache| - |cache|;
    forall j | 0 <= j < |x.cache| && x.cache[j] !in x.ws ensures x.cache[j] in rs <==> LooksAt(x, Some(e), j) {
      PassedNotBeyond(x, parent, cache, j);
      if j > 0 { PassedNotBeyond(x, parent, cache, j - 1); }
      if j >= n { assert x.cache[j] == cache[j - n]; }
    }
  }

  /** Passed keys lie at or before the current one, others at or beyond it. */
  lemma PassedNotBeyond(x: Scene, parent: seq<Entry>, cache: seq<Key>, j: nat)
    requires Place(x, parent, cache) && (parent != [] || cache != []) && j < |x.cache|
    ensures var e, n := HeadKey(x.asc, parent, cache), |x.cache| - |cache|;
            Before(x.asc, e, x.cache[j]) <==> j > n || (j == n && !FromCache(x.asc, parent, cache))
  {
    var e, n := HeadKey(x.asc, parent, cache), |x.cache| - |cache|;
    BeforeNotSelf(x.asc, e);
    if n < |x.cache| { assert x.cache[n] == cache[0]; }
    if j < n {
      assert n < |x.cache| ==> Before(x.asc, x.cache[j], x.cache[n]);
      BeforeIsStrict(x.asc, x.cache[j], e);
    } else if j > n {
      assert Before(x.asc, x.cache[n], x.cache[j]);
      if !FromCache(x.asc, parent, cache) { BeforeTransitive(x.asc, e, x.cache[n], x.cache[j]); }
    }
  }

  ghost function Asked(x: Scene, e: Option<Key>): set<Key> {
    set j | 0 <= j < |x.cache| && x.cache[j] !in x.ws && LooksAt(x, e, j) :: x.cache[j]
  }

  lemma FetchedAreAsked(x: Scene, e: Option<Key>, rs: ReadSet)
    requires FetchedWithin(x, rs) && FetchedExactly(x, e, rs)
    ensures rs.Keys == Asked(x, e)
  {
    hide LooksAt;
    forall c ensures c in rs <==> c in Asked(x, e) {
      if c in rs { var j :| 0 <= j < |x.cache| && x.cache[j] == c; }
    }
  }

  function StopAmong(stop: Option<Key>, keys: seq<Key>): Option<Key> {
    if stop.Some? && stop.value in keys then stop else None
  }

  ghost function DrainFrom(x: Scene, parent: seq<Entry>, cache: seq<Key>, rs: ReadSet): seq<Key> {
    Drained(x.asc, parent, cache, x.ws, rs, x.src)
  }

  ghost function VerdictFrom(x: Scene, parent: seq<Entry>, cache: seq<Key>, rs: ReadSet,
                             expected: set<Key>, found: nat, stop: Option<Key>): Verdict {
    ReplayFrom(x.asc, parent, cache, x.ws, rs, x.src, expected, found, stop)
  }

  /** A replay fetches only keys it merges; an accepted one exactly those it looks at. */
  lemma {:induction false} ReplayFetches(x: Scene, parent: seq<Entry>, cache: seq<Key>, rs: ReadSet,
                                         expected: set<Key>, found: nat, stop: Option<Key>)
    requires Waits(x, parent, cache, rs)
    ensures var v := VerdictFrom(x, parent, cache, rs, expected, found, stop);
            && FetchedWithin(x, v.fetched)
            && (v.valid ==> FetchedExactly(x, StopAmong(stop, DrainFrom(x, parent, cache, rs)), v.fetched))
    decreases |parent| + |cache|
  {
    hide Waits, Stands, HeadLives, HeadKey, ParentAfter, CacheAfter, SkipUntilExists, FetchedExactly, FetchedWithin;
    var s := SkipFrom(x, parent, cache, rs);
    SkipStands(x, parent, cache, rs);
    SkipLives(x, parent, cache, rs);
    SkipShrinks(x.asc, parent, cache, x.ws, rs, x.src);
    StandsWithin(x, s.parent, s.cache, s.rs);
    if SkipFound(s) {
      ExactAtStop(x, s.parent, s.cache, s.rs);
      AdvanceWaits(x, s.parent, s.cache, s.rs);
      AdvanceShrinks(x, s.parent, s.cache);
      var p, c := ParentAfter(x.asc, s.parent, s.cache), CacheAfter(x.asc, s.parent, s.cache);
      ReplayFetches(x, p, c, s.rs, expected, found + 1, stop);
    } else {
      EndsExactly(x, s.rs);
    }
  }

  lemma SkipLives(x: Scene, parent: seq<Entry>, cache: seq<Key>, rs: ReadSet)
    requires Waits(x, parent, cache, rs)
    ensures var s := SkipFrom(x, parent, cache, rs);
            && s.SkipAt?
            && if SkipFound(s) then HeadLives(x.asc, s.parent, s.cache, x.val) else s.parent == [] && s.cache == []
  {
    SkipStops(x.asc, parent, cache, x.ws, rs, x.src, x.val);
  }

  lemma StandsWithin(x: Scene, parent: seq<Entry>, cache: seq<Key>, rs: ReadSet)
    requires Stands(x, parent, cache, rs)
    ensures FetchedWithin(x, rs)
  {
  }

  lemma EndsExactly(x: Scene, rs: ReadSet)
    requires Stands(x, [], [], rs)
    ensures FetchedExactly(x, None, rs)
  {
  }

  lemma AdvanceShrinks(x: Scene, parent: seq<Entry>, cache: seq<Key>)
    requires HeadLives(x.asc, parent, cache, x.val)
    ensures |ParentAfter(x.asc, parent, cache)| + |CacheAfter(x.asc, parent, cache)| < |parent| + |cache|
  {
  }

  // ----- The answers -----

  ghost function SceneOf(s: Shared, parent: KVMap, i: nat, t: Tracker): Scene {
    Scene(t.ascending, EntriesOf(t.ascending, t.range, parent), ReplayCache(s, i, t), t.writeset, Answered(s, i),
          ReplayValue(s, i, t.writeset))
  }

  lemma StartWaits(x: Scene)
    requires InOrder(x) && Answers(x.ws, map[], x.src, x.val)
    ensures Waits(x, x.parent, x.cache, map[])
  {
    hide Ordered, Answers, Before;
    assert x.cache[0..] == x.cache && x.parent[0..] == x.parent;
  }

  lemma SceneWaits(s: Shared, parent: KVMap, i: nat, t: Tracker)
    ensures var x := SceneOf(s, parent, i, t); Waits(x, x.parent, x.cache, map[])
  {
    assert Answers(t.writeset, map[], Answered(s, i), ReplayValue(s, i, t.writeset));
    hide Answers, Answered, ReplayValue, Waits, Ordered, Collected;
    StartWaits(SceneOf(s, parent, i, t));
  }

  /** The early stop, if the replay comes to it. */
  ghost function StopOf(s: Shared, parent: KVMap, i: nat, t: Tracker): Option<Key> {
    StopAmong(t.earlyStop, ReplayKeys(s, parent, i, t))
  }

  /** The keys an accepted replay asks the store for: those merged up to the early stop, and the one after it where
      the merged key before that one is deleted and not in the parent. */
  ghost function AskedFor(s: Shared, parent: KVMap, i: nat, t: Tracker): set<Key> {
    Asked(SceneOf(s, parent, i, t), StopOf(s, parent, i, t))
  }

  /** The estimates among them. */
  ghost function InWay(s: Shared, parent: KVMap, i: nat, t: Tracker): set<Key> {
    EstimatedAmong(s, i, AskedFor(s, parent, i, t))
  }

  lemma AskedExactly(s: Shared, parent: KVMap, i: nat, t: Tracker)
    ensures FetchedWithin(SceneOf(s, parent, i, t), Replayed(s, parent, i, t).fetched)
    ensures ValidateIterator(s, parent, i, t) ==> Replayed(s, parent, i, t).fetched.Keys == AskedFor(s, parent, i, t)
  {
    hide Waits, ReplayFrom, ValidateIterator, FetchedWithin, FetchedExactly, ReplayCache, Drained, ReplayKeys, Asked;
    var x, v := SceneOf(s, parent, i, t), Replayed(s, parent, i, t);
    SceneWaits(s, parent, i, t);
    ReplayFetches(x, x.parent, x.cache, map[], t.iteratedKeys, 0, t.earlyStop);
    ReplayDrains(s, parent, i, t);
    ReplayIsValidate(s, parent, i, t);
    if v.valid { FetchedAreAsked(x, StopOf(s, parent, i, t), v.fetched); }
  }

  /** What an accepted replay comes upon. */
  lemma MetExact(s: Shared, parent: KVMap, i: nat, t: Tracker)
    ensures ValidateIterator(s, parent, i, t) ==> Met(s, parent, i, t) == InWay(s, parent, i, t)
  {
    hide ValidateIterator, Replayed, AskedFor;
    AskedExactly(s, parent, i, t);
  }

  /** The answers validation may give, in every state and for every iteration. */
  lemma AnswersExact(s: Shared, parent: KVMap, i: nat, t: Tracker)
    ensures MayAnswer(s, parent, i, t, true) <==> ValidateIterator(s, parent, i, t) && |InWay(s, parent, i, t)| <= 1
    ensures MayAnswer(s, parent, i, t, false) <==> !ValidateIterator(s, parent, i, t) || InWay(s, parent, i, t) != {}
  {
    hide InWay, Met, ValidateIterator;
    MetExact(s, parent, i, t);
  }

  /** The estimates below index i that an iteration over the tracker's range could come upon. */
  ghost function Hidden(s: Shared, i: nat, t: Tracker): set<Key> {
    EstimatedAmong(s, i, set k | k in ReplayCache(s, i, t) && k !in t.writeset)
  }

  /** Those of them that the iteration got as far as. */
  ghost function Covered(s: Shared, i: nat, t: Tracker): set<Key> {
    set k | k in Hidden(s, i, t) && (t.earlyStop.None? || !Before(t.ascending, t.earlyStop.value, k))
  }

  /** A replay meets no other estimates than those in its range and, where it accepts, all it got as far as. */
  lemma MetBounds(s: Shared, parent: KVMap, i: nat, t: Tracker)
    ensures Met(s, parent, i, t) <= Hidden(s, i, t)
    ensures ValidateIterator(s, parent, i, t) ==> Covered(s, i, t) <= Met(s, parent, i, t)
  {
    hide ValidateIterator, Replayed, ReplayCache, ReplayKeys, Before, Peeks;
    AskedExactly(s, parent, i, t);
    var x := SceneOf(s, parent, i, t);
    forall k | k in Covered(s, i, t) ensures k in InWay(s, parent, i, t) {
      var j :| 0 <= j < |x.cache| && x.cache[j] == k;
      assert LooksAt(x, StopOf(s, parent, i, t), j);
    }
  }

  /** An iteration that got past two estimates is never accepted. */
  lemma TwoEstimatesRefused(s: Shared, parent: KVMap, i: nat, t: Tracker)
    requires |Covered(s, i, t)| >= 2
    ensures !MayAnswer(s, parent, i, t, true)
  {
    hide Covered, Met, Hidden, ValidateIterator;
    MetBounds(s, parent, i, t);
    if ValidateIterator(s, parent, i, t) { SubsetCardinality(Covered(s, i, t), Met(s, parent, i, t)); }
  }

  // ----- One estimate -----

  /** The record of an iteration over everything that found nothing. */
  const FoundNothing := Tracker(Range(None, None), true, map[], {}, None)

  /** Below index 1 there is an estimate for k and nothing else. */
  ghost predicate OneEstimate(s: Shared, k: Key) {
    Inv(s) && forall x: Key :: LatestFor(s, 1, x) == if x == k then Some(NewEstimateItem(0, 0)) else None
  }

  lemma AllAsked(x: Scene, k: Key)
    requires (forall c :: c in x.cache <==> c == k) && k !in x.ws
    ensures Asked(x, None) == {k}
  {
    assert k in x.cache;
    var j :| 0 <= j < |x.cache| && x.cache[j] == k;
    assert LooksAt(x, None, j);
    forall i | 0 <= i < |x.cache| ensures x.cache[i] == k { assert x.cache[i] in x.cache; }
  }

  lemma OneCached(s: Shared, k: Key)
    requires OneEstimate(s, k)
    ensures forall c :: c in ReplayCache(s, 1, FoundNothing) <==> c == k
  {
    hide LatestFor, Inv, Sorted, Collected;
    forall y: Key ensures y in Collected(s, 1) <==> y == k { ReplayFindsVersions(s, 1, y); }
  }

  lemma OneEstimateInWay(s: Shared, k: Key)
    requires OneEstimate(s, k)
    ensures InWay(s, map[], 1, FoundNothing) == {k}
  {
    hide LatestFor, Inv, ReplayKeys, ReplayCache, Answered, ReplayValue, EntriesOf, Asked;
    OneCached(s, k);
    AllAsked(SceneOf(s, map[], 1, FoundNothing), k);
    assert EstimatedAmong(s, 1, {k}) == {k};
  }

  lemma OneEstimatePasses(s: Shared, k: Key)
    requires OneEstimate(s, k)
    ensures ValidateIterator(s, map[], 1, FoundNothing)
  {
    PhantomCheckExact(s, map[], 1, FoundNothing);
    forall x: Key ensures x !in View(s, map[], 1) {}
    assert FreshScan(View(s, map[], 1), FoundNothing) == [];
  }

  /** The first transaction writes k, the second one looks whether there is anything at all. */
  function Race(k: Key): Block {
    Block([(h: seq<Resp>) => if h == [] then Put(k, Some([7])) else Commit, Looker], map[])
  }

  function Looker(h: seq<Resp>): Op {
    if h == [] then Open(Range(None, None), true) else if |h| == 1 then IsValid(0) else Commit
  }

  const Opening := Iter(FoundNothing, [], [], true, [], 0, false)
  const LookerMid := Local([Done], map[], map[], [Opening])
  const LookerEnd := Local([Done, Is(false)], map[], map[], [Opening.(ended := true)])

  lemma LookerOpens(k: Key)
    ensures Calls(Race(k), Fresh, 1, Start, LookerMid)
  {
    var r, none: KVMap, hist: seq<Resp>, iters: seq<Iter> := Range(None, None), map[], [], [];
    assert Collected(Fresh, 1) == {};
    assert KeysIn(r, none.Keys) == {} && KeysIn(r, {}) == {};
    assert EntriesOf(true, r, none) == [] && Scan(true, r, {} + Start.writeset.Keys + Start.readset.Keys) == [];
    assert hist + [Done] == [Done] && iters + [Opening] == [Opening];
  }

  lemma LookerLooks(k: Key)
    ensures Calls(Race(k), Fresh, 1, LookerMid, LookerEnd)
  {
    assert [Done] + [Is(false)] == [Done, Is(false)];
    assert [Opening][0 := Opening.(ended := true)] == [Opening.(ended := true)];
  }

  lemma LookerExecutes(k: Key)
    ensures Executes(Race(k), Fresh, 1, [Start, LookerMid, LookerEnd])
  {
    LookerOpens(k);
    LookerLooks(k);
    hide Calls;
    assert Trace(Race(k), Fresh, 1, [Start]);
    assert [Start, LookerMid][..1] == [Start] && Trace(Race(k), Fresh, 1, [Start, LookerMid]);
    assert [Start, LookerMid, LookerEnd][..2] == [Start, LookerMid];
  }

  function Putting(k: Key): Local {
    Local([Done], map[], map[k := Some([7])], [])
  }

  lemma PutterPuts(k: Key, u: Shared)
    ensures Calls(Race(k), u, 0, Start, Putting(k))
  {
    var hist: seq<Resp> := [];
    assert hist + [Done] == [Done];
  }

  ghost function Estimated(u: Shared, k: Key): Shared {
    SetEstimatedWriteset(u, 0, 0, Putting(k).writeset)
  }

  lemma LookerRecorded(u: Shared, s: Shared, k: Key)
    requires RecordsMatch(u, map[1 := LookerEnd]) && s == Estimated(u, k)
    ensures IteratesetAt(s, 1) == [FoundNothing]
  {
    EstimatesKeepRecords(u, k);
    hide Estimated;
    assert IteratesetAt(u, 1) == Trackers(LookerEnd.iters) == [FoundNothing];
  }

  lemma EstimatesKeepRecords(u: Shared, k: Key)
    ensures Estimated(u, k).iteratesets == u.iteratesets
  {
  }

  lemma EstimateLeft(u: Shared, k: Key)
    requires HoldsAll(u, map[1 := LookerEnd])
    ensures OneEstimate(Estimated(u, k), k) && IteratesetAt(Estimated(u, k), 1) == [FoundNothing]
  {
    var s, news := Estimated(u, k), EstimateItems(0, 0, Putting(k).writeset.Keys);
    LookerRecorded(u, s, k);
    hide Inv, Replace, RecordsMatch;
    ReplaceEffect(u, 0, news, s);
    forall x: Key ensures LatestFor(s, 1, x) == if x == k then Some(NewEstimateItem(0, 0)) else None {
      assert Holds(s, 0, x) <==> x in news;
      var item := ItemAt(s, x);
      assert LatestBefore(item, 1) == if 0 in item then Some(item[0]) else LatestBefore(item, 0);
    }
  }

  /** The first transaction, after the second one has run, leaves its write as an estimate. */
  lemma RaceRuns(k: Key) returns (acts: seq<Action>, u: Shared, s: System)
    ensures Leads(Race(k), acts, s) && HoldsAll(u, map[1 := LookerEnd]) && s.shared == Estimated(u, k)
  {
    var b := Race(k);
    StartReached(b);
    LookerExecutes(k);
    hide Leads, HoldsAll, Executes, Calls, PublishedState, SetEstimatedWriteset;
    acts, u := RunOneMore(b, [], Fresh, map[], 1, [Start, LookerMid, LookerEnd], LookerEnd);
    assert map[][1 := LookerEnd] == map[1 := LookerEnd];
    var s0, put := System(u, map[], map[1 := LookerEnd]), Putting(k);
    Extend(b, acts, s0, Begin(0), s0.(running := s0.running[0 := Start]));
    PutterPuts(k, u);
    acts := OneCall(b, acts + [Begin(0)], s0, 0, Start, put);
    var s1 := s0.(running := s0.running[0 := put]);
    s := s1.(shared := Estimated(u, k), clean := s1.clean - {0});
    Extend(b, acts, s1, PublishEstimates(0, 0), s);
    acts := acts + [PublishEstimates(0, 0)];
  }

  /** One estimate in the way: in this run the recorded iteration may be accepted or refused. */
  lemma OneEstimateRaces(k: Key) returns (acts: seq<Action>, s: System)
    ensures Leads(Race(k), acts, s) && IteratesetAt(s.shared, 1) == [FoundNothing]
    ensures MayAnswer(s.shared, map[], 1, FoundNothing, true) && MayAnswer(s.shared, map[], 1, FoundNothing, false)
  {
    hide MayAnswer, ValidateIterator, InWay, OneEstimate, Leads, HoldsAll;
    var u;
    acts, u, s := RaceRuns(k);
    EstimateLeft(u, k);
    OneEstimatePasses(s.shared, k);
    OneEstimateInWay(s.shared, k);
    AnswersExact(s.shared, map[], 1, FoundNothing);
  }
}

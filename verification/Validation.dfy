/** `validateIterator`: the tracked iteration runs again on the lazily skipping merge, whose cache side is now a
    `validationIterator`. That one takes an estimate for a deletion and reports it on the abort channel. */
module Validation {
  import opened Bytes
  import opened VersionedItem
  import opened MergeIterator
  import opened MultiVersion
  import opened Execution
  import opened StillScan

  // ----- What the replay computes -----

  /** What the newest version below index i answers; an estimate has no value. */
  function Answered(s: Shared, i: nat): Key -> Source {
    (k: Key) => Current(if LatestFor(s, i, k).Some? then LatestFor(s, i, k).value.value else None)
  }

  /** The verdict, and the values fetched on the way. */
  datatype Verdict = Verdict(valid: bool, fetched: ReadSet)

  /** The loop of the replay, from a position of the merge iterator on. */
  function ReplayFrom(asc: bool, parent: seq<Entry>, cache: seq<Key>, ws: WriteSet, rs: ReadSet, src: Key -> Source,
                      expected: set<Key>, found: nat, stop: Option<Key>): Verdict
    decreases |parent| + |cache|
  {
    var s := SkipUntilExists(asc, parent, cache, ws, rs, src);
    SkipShrinks(asc, parent, cache, ws, rs, src);
    if s.SkipAbort? then Verdict(false, rs)
    else if !SkipFound(s) then Verdict(!(|expected| - found > 0), s.rs)
    else
      var k := HeadKey(asc, s.parent, s.cache);
      if |expected| - found == 0 || k !in expected then Verdict(false, s.rs)
      else if stop == Some(k) then Verdict(!(|expected| - (found + 1) > 0), s.rs)
      else ReplayFrom(asc, ParentAfter(asc, s.parent, s.cache), CacheAfter(asc, s.parent, s.cache), ws, s.rs, src,
                      expected, found + 1, stop)
  }

  ghost function Replayed(s: Shared, parent: KVMap, i: nat, t: Tracker): Verdict {
    ReplayFrom(t.ascending, EntriesOf(t.ascending, t.range, parent), ReplayCache(s, i, t), t.writeset, map[],
               Answered(s, i), t.iteratedKeys, 0, t.earlyStop)
  }

  ghost function ReplayCache(s: Shared, i: nat, t: Tracker): seq<Key> {
    Scan(t.ascending, t.range, Collected(s, i) + t.writeset.Keys)
  }

  /** The verdict is that of comparing the keys of the drained merge. */
  lemma {:induction false} ReplayChecksDrained(asc: bool, parent: seq<Entry>, cache: seq<Key>, ws: WriteSet,
                                               rs: ReadSet,
                                               src: Key -> Source, val: Key -> Option<Bytes>,
                                               expected: set<Key>, found: nat, stop: Option<Key>)
    requires Answers(ws, rs, src, val)
    ensures ReplayFrom(asc, parent, cache, ws, rs, src, expected, found, stop).valid
         == CheckKeys(Drained(asc, parent, cache, ws, rs, src), expected, found, stop)
    decreases |parent| + |cache|
  {
    var s := SkipUntilExists(asc, parent, cache, ws, rs, src);
    hide SkipUntilExists, Remaining, Filled, Answers;
    SkipStops(asc, parent, cache, ws, rs, src, val);
    SkipShrinks(asc, parent, cache, ws, rs, src);
    if SkipFound(s) {
      var p, c := ParentAfter(asc, s.parent, s.cache), CacheAfter(asc, s.parent, s.cache);
      var rest := Drained(asc, p, c, ws, s.rs, src);
      var all := Drained(asc, parent, cache, ws, rs, src);
      assert all == [HeadKey(asc, s.parent, s.cache)] + rest && all[1..] == rest;
      ReplayChecksDrained(asc, p, c, ws, s.rs, src, val, expected, found + 1, stop);
    }
  }

  function ReplayValue(s: Shared, i: nat, ws: WriteSet): Key -> Option<Bytes> {
    (k: Key) => if k in ws then ws[k] else Answered(s, i)(k).value
  }

  lemma FilledWithValues(s: Shared, i: nat, t: Tracker)
    ensures Filled(ReplayCache(s, i, t), ReplayValue(s, i, t.writeset))
         == WritesOf(t.ascending, t.range, ReplayWrites(s, i, t.writeset))
  {
    hide Scan, Filled, WritesOf, LatestFor, Collected;
    var cache, ws := ReplayCache(s, i, t), ReplayWrites(s, i, t.writeset);
    assert ws.Keys == Collected(s, i) + t.writeset.Keys;
    forall k | k in ws ensures ws[k] == ReplayValue(s, i, t.writeset)(k) { ReplayWritesAt(s, i, t.writeset, k); }
    hide ReplayWrites, ReplayValue;
    FilledIsWrites(t.ascending, t.range, ws, ReplayValue(s, i, t.writeset));
  }

  lemma ReplayWritesAt(s: Shared, i: nat, ws: WriteSet, k: Key)
    requires k in ReplayWrites(s, i, ws)
    ensures ReplayWrites(s, i, ws)[k] == ReplayValue(s, i, ws)(k)
  {
    var latest := LatestFor(s, i, k);
    assert Answered(s, i)(k) == Current(if latest.Some? then latest.value.value else None);
    assert ReplayValue(s, i, ws)(k) == if k in ws then ws[k] else Answered(s, i)(k).value;
    assert ReplayWrites(s, i, ws)[k] == if k in ws then ws[k] else if latest.Some? then latest.value.value else None;
  }

  /** The lazy replay gives the verdict of the phantom check, estimates or not. */
  lemma ReplayIsValidate(s: Shared, parent: KVMap, i: nat, t: Tracker)
    ensures Replayed(s, parent, i, t).valid <==> ValidateIterator(s, parent, i, t)
  {
    var entries, cache, val := EntriesOf(t.ascending, t.range, parent), ReplayCache(s, i, t),
         ReplayValue(s, i, t.writeset);
    assert Answers(t.writeset, map[], Answered(s, i), val);
    hide ReplayCache, ReplayValue, Answers, Answered, ReplayFrom, Drained, Remaining, Filled, CheckKeys, EntriesOf,
         WritesOf;
    ReplayChecksDrained(t.ascending, entries, cache, t.writeset, map[], Answered(s, i), val, t.iteratedKeys, 0,
                        t.earlyStop);
    ReplayDrains(s, parent, i, t);
  }

  lemma ReplayDrains(s: Shared, parent: KVMap, i: nat, t: Tracker)
    ensures Drained(t.ascending, EntriesOf(t.ascending, t.range, parent), ReplayCache(s, i, t), t.writeset, map[],
                    Answered(s, i))
         == ReplayKeys(s, parent, i, t)
  {
    var entries, cache, val := EntriesOf(t.ascending, t.range, parent), ReplayCache(s, i, t),
         ReplayValue(s, i, t.writeset);
    assert Answers(t.writeset, map[], Answered(s, i), val);
    hide ReplayCache, ReplayValue, Answers, Answered, Drained, Remaining, Filled, EntriesOf, WritesOf;
    DrainedIsRemaining(t.ascending, entries, cache, t.writeset, map[], Answered(s, i), val);
    FilledWithValues(s, i, t);
  }

  // ----- Estimates on the way -----

  function EstimatedAmong(s: Shared, i: nat, ks: set<Key>): set<Key> {
    set k | k in ks && LatestFor(s, i, k).Some? && LatestFor(s, i, k).value.IsEstimate()
  }

  /** The estimates a replay comes upon. */
  ghost function Met(s: Shared, parent: KVMap, i: nat, t: Tracker): set<Key> {
    EstimatedAmong(s, i, Replayed(s, parent, i, t).fetched.Keys)
  }

  /** The answers `validateIterator` may give. One report leaves a race between the abort and the verdict. A second
      one waits for the first to be received, which settles for the abort. */
  ghost predicate MayAnswer(s: Shared, parent: KVMap, i: nat, t: Tracker, ok: bool) {
    if ok then ValidateIterator(s, parent, i, t) && |Met(s, parent, i, t)| <= 1
    else !ValidateIterator(s, parent, i, t) || Met(s, parent, i, t) != {}
  }

  /** Where no estimate lies below the index the answer is the verdict. */
  lemma AnswerIsVerdict(s: Shared, parent: KVMap, i: nat, t: Tracker, ok: bool)
    requires NoEstimatesBefore(s, i)
    ensures MayAnswer(s, parent, i, t, ok) <==> ok == ValidateIterator(s, parent, i, t)
  {
    hide ValidateIterator, Replayed;
    forall k: Key | LatestFor(s, i, k).Some? ensures !LatestFor(s, i, k).value.IsEstimate() {
      LatestBeforeIsGreatest(ItemAt(s, k), i);
      var j :| 0 <= j < i && j in ItemAt(s, k) && LatestFor(s, i, k).value == ItemAt(s, k)[j];
      assert Holds(s, j, k);
    }
    assert Met(s, parent, i, t) == {};
  }

  /** The answers `checkIteratorAtIndex` may give for these trackers. */
  ghost predicate MayPass(s: Shared, parent: KVMap, i: nat, ts: seq<Tracker>, valid: bool) {
    if valid then forall n :: 0 <= n < |ts| ==> MayAnswer(s, parent, i, ts[n], true)
    else exists n :: 0 <= n < |ts| && MayAnswer(s, parent, i, ts[n], false)
  }

  lemma PassIsVerdict(s: Shared, parent: KVMap, i: nat, ts: seq<Tracker>, valid: bool)
    ensures MayPass(s, parent, i, ts, true) ==> TrackersValid(s, parent, i, ts)
    ensures NoEstimatesBefore(s, i) ==> (MayPass(s, parent, i, ts, valid) <==> valid == TrackersValid(s, parent, i, ts))
  {
    if NoEstimatesBefore(s, i) {
      hide MayAnswer, ValidateIterator, NoEstimatesBefore;
      forall n, ok | 0 <= n < |ts|
        ensures MayAnswer(s, parent, i, ts[n], ok) <==> ok == ValidateIterator(s, parent, i, ts[n])
      {
        AnswerIsVerdict(s, parent, i, ts[n], ok);
      }
    }
  }

  lemma PassMore(s: Shared, parent: KVMap, i: nat, ts: seq<Tracker>, n: nat, valid: bool, ok: bool)
    requires n < |ts| && MayPass(s, parent, i, ts[..n], valid) && MayAnswer(s, parent, i, ts[n], ok)
    ensures MayPass(s, parent, i, ts[..n + 1], valid && ok)
  {
    hide MayAnswer;
    var more := ts[..n + 1];
    assert forall j :: 0 <= j < n ==> more[j] == ts[..n][j];
    if !valid {
      var j :| 0 <= j < n && MayAnswer(s, parent, i, ts[..n][j], false);
      assert MayAnswer(s, parent, i, more[j], false);
    } else if !ok {
      assert MayAnswer(s, parent, i, more[n], false);
    }
  }

  // ----- The iterator -----

  function Wrapped(rc: map<Key, Option<Bytes>>): ReadSet {
    map k | k in rc :: [rc[k]]
  }

  /** The merge iterator over a `validationIterator`. */
  class ReplayIterator {
    const shared: Shared
    const index: nat
    const ascending: bool
    const writeset: WriteSet
    var parent: seq<Entry>
    var cache: seq<Key>
    var readCache: map<Key, Option<Bytes>>
    var aborts: seq<nat>

    /** Every key has a version to ask for, and every estimate asked for is reported once. */
    ghost predicate Valid() reads this {
      && (forall k :: k in cache && k !in writeset ==> LatestFor(shared, index, k).Some?)
      && |aborts| == |EstimatedAmong(shared, index, readCache.Keys)|
    }

    ghost function Fetched(): (rs: ReadSet)
      reads this
      ensures rs.Keys == readCache.Keys
    {
      Wrapped(readCache)
    }

    /** What the replay makes of the keys ahead. */
    ghost function Ahead(expected: set<Key>, found: nat, stop: Option<Key>): Verdict reads this {
      ReplayFrom(ascending, parent, cache, writeset, Fetched(), Answered(shared, index), expected, found, stop)
    }

    ghost function Skips(): Skip reads this {
      SkipUntilExists(ascending, parent, cache, writeset, Fetched(), Answered(shared, index))
    }

    constructor (shared: Shared, index: nat, ascending: bool, writeset: WriteSet, parent: seq<Entry>, cache: seq<Key>)
      requires forall k :: k in cache && k !in writeset ==> LatestFor(shared, index, k).Some?
      ensures Valid() && Fetched() == map[]
      ensures this.shared == shared && this.index == index && this.ascending == ascending && this.writeset == writeset
      ensures this.parent == parent && this.cache == cache
    {
      this.shared, this.index, this.ascending, this.writeset := shared, index, ascending, writeset;
      this.parent, this.cache, this.readCache, this.aborts := parent, cache, map[], [];
      assert EstimatedAmong(shared, index, {}) == {};
    }

    /** `validationIterator.Value`. */
    method GetValue() returns (v: Option<Bytes>)
      requires Valid() && cache != []
      modifies this`readCache, this`aborts
      ensures Valid() && Read(writeset, old(Fetched()), Answered(shared, index), cache[0]) == Value(Fetched(), v)
    {
      var k := cache[0];
      if k in writeset { return writeset[k]; }
      if k in readCache { return readCache[k]; }
      var item := LatestFor(shared, index, k).value;
      if item.IsEstimate() { aborts := aborts + [item.index]; }
      v := if item.IsDeleted() then None else item.value;
      EstimatedMore(shared, index, readCache.Keys, k);
      readCache := readCache[k := v];
      assert readCache.Keys == old(readCache.Keys) + {k};
      FetchedMore(old(readCache), k, v);
    }

    method SkipCacheDeletes(until: Option<Key>)
      requires Valid()
      modifies this`cache, this`readCache, this`aborts
      ensures Valid() && |cache| <= |old(cache)|
      ensures SkipDeletes(ascending, old(cache), until, writeset, old(Fetched()), Answered(shared, index))
           == DeletesAt(cache, Fetched())
    {
      while true
        invariant Valid() && |cache| <= |old(cache)|
        invariant SkipDeletes(ascending, old(cache), until, writeset, old(Fetched()), Answered(shared, index))
               == SkipDeletes(ascending, cache, until, writeset, Fetched(), Answered(shared, index))
        decreases |cache|
      {
        if cache == [] { return; }
        var v := GetValue();
        if v.Some? || !(until.None? || Before(ascending, cache[0], until.value)) { return; }
        cache := cache[1..];
      }
    }

    method SkipUntilExistsOrInvalid() returns (ok: bool)
      requires Valid()
      modifies this`parent, this`cache, this`readCache, this`aborts
      ensures Valid() && old(Skips()) == SkipAt(parent, cache, Fetched(), ok) && (ok ==> parent != [] || cache != [])
    {
      while true
        invariant Valid() && Skips() == old(Skips())
        decreases |parent| + |cache|
      {
        if parent == [] {
          SkipCacheDeletes(None);
          return cache != [];
        }
        if cache == [] || Before(ascending, parent[0].key, cache[0]) { return true; }
        ghost var before := Fetched();
        var v := GetValue();
        if v.Some? { return true; }
        ReadAgain(writeset, before, Answered(shared, index), cache[0]);
        if parent[0].key == cache[0] {
          parent, cache := parent[1..], cache[1..];
        } else {
          BeforeTotal(ascending, parent[0].key, cache[0]);
          SkipCacheDeletes(Some(parent[0].key));
        }
      }
    }

    /** `Next`; on an iterator at its end it panics. */
    method Next()
      requires Valid() && SkipFound(Skips())
      modifies this`parent, this`cache, this`readCache, this`aborts
      ensures Valid() && Fetched() == old(Skips()).rs
      ensures |parent| + |cache| < |old(Skips()).parent| + |old(Skips()).cache|
      ensures parent == ParentAfter(ascending, old(Skips()).parent, old(Skips()).cache)
      ensures cache == CacheAfter(ascending, old(Skips()).parent, old(Skips()).cache)
    {
      var ok := SkipUntilExistsOrInvalid();
      if !FromCache(ascending, parent, cache) {
        parent := parent[1..];
      } else if parent != [] && parent[0].key == cache[0] {
        parent, cache := parent[1..], cache[1..];
      } else {
        cache := cache[1..];
      }
    }
  }

  /** The goroutine of `validateIterator`: the verdict it sends. */
  method Replay(it: ReplayIterator, expected: set<Key>, stop: Option<Key>) returns (valid: bool)
    requires it.Valid()
    modifies it
    ensures it.Valid() && |it.aborts| == |EstimatedAmong(it.shared, it.index, it.Fetched().Keys)|
    ensures Verdict(valid, it.Fetched())
         == old(it.Ahead(expected, 0, stop))
  {
    hide SkipUntilExists, ParentAfter, CacheAfter, HeadKey, LatestFor, EstimatedAmong;
    var found := 0;
    while true
      invariant it.Valid()
      invariant it.Ahead(expected, found, stop) == old(it.Ahead(expected, 0, stop))
      decreases |it.parent| + |it.cache|
    {
      SkipShrinks(it.ascending, it.parent, it.cache, it.writeset, it.Fetched(), Answered(it.shared, it.index));
      SkipTwice(it.ascending, it.parent, it.cache, it.writeset, it.Fetched(), Answered(it.shared, it.index));
      var more := it.SkipUntilExistsOrInvalid();
      if !more { return !(|expected| - found > 0); }
      if |expected| - found == 0 { return false; }
      var key := HeadKey(it.ascending, it.parent, it.cache);
      if key !in expected { return false; }
      found := found + 1;
      if stop == Some(key) { return !(|expected| - found > 0); }
      it.Next();
    }
  }

  lemma EstimatedMore(s: Shared, i: nat, ks: set<Key>, k: Key)
    requires LatestFor(s, i, k).Some? && k !in ks
    ensures |EstimatedAmong(s, i, ks + {k})|
         == |EstimatedAmong(s, i, ks)| + (if LatestFor(s, i, k).value.IsEstimate() then 1 else 0)
  {
    var more := EstimatedAmong(s, i, ks + {k});
    assert EstimatedAmong(s, i, ks) == more - {k};
  }

  lemma FetchedMore(rc: map<Key, Option<Bytes>>, k: Key, v: Option<Bytes>)
    requires k !in rc
    ensures UpdateReadSet(Wrapped(rc), k, v) == Wrapped(rc[k := v])
  {
    var none: seq<Option<Bytes>> := [];
    assert none + [v] == [v];
  }
}

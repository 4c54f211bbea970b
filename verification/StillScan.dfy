/** The lazily skipping merge iterator of `multiversion/mergeiterator.go`, drained while the shared store
    holds still, emits exactly the ordered scan of the overlay. */
module StillScan {
  import opened Bytes
  import opened MergeIterator
  import opened MultiVersion
  import opened Execution

  /** Every read, now and after any further reads, answers `val`. */
  ghost predicate Answers(ws: WriteSet, rs: ReadSet, src: Key -> Source, val: Key -> Option<Bytes>) {
    forall k: Key ::
      if k in ws then ws[k] == val(k)
      else if k in rs then |rs[k]| > 0 && rs[k][0] == val(k)
      else src(k) == Current(val(k))
  }

  lemma ReadAnswers(ws: WriteSet, rs: ReadSet, src: Key -> Source, val: Key -> Option<Bytes>, k: Key)
    requires Answers(ws, rs, src, val)
    ensures var r := Read(ws, rs, src, k); r.Value? && r.value == val(k) && Answers(ws, r.rs, src, val)
  {
    if k !in ws && k !in rs {
      var none: seq<Option<Bytes>> := [];
      assert !HasEqual(none, val(k)) && none + [val(k)] == [val(k)];
    }
  }

  /** The cache side with its values filled in. */
  function Filled(cache: seq<Key>, val: Key -> Option<Bytes>): (s: seq<Write>)
    ensures |s| == |cache| && WriteKeys(s) == cache && forall i :: 0 <= i < |s| ==>
              s[i] == MergeIterator.Write(cache[i], val(cache[i]))
  {
    seq(|cache|, i requires 0 <= i < |cache| => MergeIterator.Write(cache[i], val(cache[i])))
  }

  lemma FilledTail(cache: seq<Key>, val: Key -> Option<Bytes>)
    requires cache != []
    ensures Filled(cache, val)[1..] == Filled(cache[1..], val)
  {
  }

  /** Skipping deletions changes nothing that is still to be emitted. */
  lemma {:induction false} SkipDeletesKeeps(asc: bool, parent: seq<Entry>, cache: seq<Key>, until: Option<Key>,
                                            ws: WriteSet, rs: ReadSet, src: Key -> Source, val: Key -> Option<Bytes>)
    requires Answers(ws, rs, src, val)
    requires until == if parent == [] then None else Some(parent[0].key)
    ensures var d := SkipDeletes(asc, cache, until, ws, rs, src);
            && d.DeletesAt? && Answers(ws, d.rs, src, val)
            && Remaining(asc, parent, Filled(d.cache, val)) == Remaining(asc, parent, Filled(cache, val))
            && (until.None? && d.cache != [] ==> val(d.cache[0]).Some?)
    decreases |cache|
  {
    if cache != [] {
      ReadAnswers(ws, rs, src, val, cache[0]);
      var r := Read(ws, rs, src, cache[0]);
      if r.value.None? && (until.None? || Before(asc, cache[0], until.value)) {
        FilledTail(cache, val);
        SkipDeletesKeeps(asc, parent, cache[1..], until, ws, r.rs, src, val);
      }
    }
  }

  /** A skip stops at the first entry still to be emitted, or reports that none is left. */
  ghost predicate StopsAtFirst(asc: bool, left: seq<Entry>, s: Skip, val: Key -> Option<Bytes>) {
    && s.SkipAt? && left == Remaining(asc, s.parent, Filled(s.cache, val))
    && (if SkipFound(s) then HeadLives(asc, s.parent, s.cache, val) else s.parent == [] && s.cache == [])
  }

  predicate HeadLives(asc: bool, parent: seq<Entry>, cache: seq<Key>, val: Key -> Option<Bytes>) {
    (parent != [] || cache != []) && (FromCache(asc, parent, cache) ==> val(cache[0]).Some?)
  }

  lemma {:induction false} SkipStops(asc: bool, parent: seq<Entry>, cache: seq<Key>, ws: WriteSet, rs: ReadSet,
                                     src: Key -> Source, val: Key -> Option<Bytes>)
    requires Answers(ws, rs, src, val)
    ensures var s := SkipUntilExists(asc, parent, cache, ws, rs, src);
            StopsAtFirst(asc, Remaining(asc, parent, Filled(cache, val)), s, val) && Answers(ws, s.rs, src, val)
    decreases |parent| + |cache|
  {
    if parent == [] {
      SkipDeletesKeeps(asc, parent, cache, None, ws, rs, src, val);
    } else if cache == [] || Before(asc, parent[0].key, cache[0]) {
    } else {
      ReadAnswers(ws, rs, src, val, cache[0]);
      var r := Read(ws, rs, src, cache[0]);
      if r.value.None? { SkipStopsAfterDelete(asc, parent, cache, ws, rs, src, val); }
    }
  }

  lemma {:induction false} SkipStopsAfterDelete(asc: bool, parent: seq<Entry>, cache: seq<Key>, ws: WriteSet,
                                                rs: ReadSet,
                                                src: Key -> Source, val: Key -> Option<Bytes>)
    requires Answers(ws, rs, src, val) && parent != [] && cache != []
    requires !Before(asc, parent[0].key, cache[0]) && val(cache[0]).None?
    ensures var s := SkipUntilExists(asc, parent, cache, ws, rs, src);
            StopsAtFirst(asc, Remaining(asc, parent, Filled(cache, val)), s, val) && Answers(ws, s.rs, src, val)
    decreases |parent| + |cache|, 0
  {
    ReadAnswers(ws, rs, src, val, cache[0]);
    var r := Read(ws, rs, src, cache[0]);
    DropDeleted(asc, parent, cache, val);
    if parent[0].key == cache[0] {
      SkipStops(asc, parent[1..], cache[1..], ws, r.rs, src, val);
    } else {
      SkipDeletesKeeps(asc, parent, cache[1..], Some(parent[0].key), ws, r.rs, src, val);
      var d := SkipDeletes(asc, cache[1..], Some(parent[0].key), ws, r.rs, src);
      SkipStops(asc, parent, d.cache, ws, d.rs, src, val);
    }
  }

  /** A deletion at the head of the cache emits nothing; on a tie it takes the parent's entry with it. */
  lemma DropDeleted(asc: bool, parent: seq<Entry>, cache: seq<Key>, val: Key -> Option<Bytes>)
    requires parent != [] && cache != [] && !Before(asc, parent[0].key, cache[0]) && val(cache[0]).None?
    ensures Remaining(asc, parent, Filled(cache, val))
         == Remaining(asc, if parent[0].key == cache[0] then parent[1..] else parent, Filled(cache[1..], val))
  {
    FilledTail(cache, val);
    BeforeTotal(asc, parent[0].key, cache[0]);
    BeforeNotSelf(asc, cache[0]);
  }

  lemma {:induction false} SkipShrinks(asc: bool, parent: seq<Entry>, cache: seq<Key>, ws: WriteSet, rs: ReadSet,
                                       src: Key -> Source)
    ensures var s := SkipUntilExists(asc, parent, cache, ws, rs, src);
            s.SkipAt? ==> |s.parent| + |s.cache| <= |parent| + |cache|
    decreases |parent| + |cache|
  {
    if parent != [] && cache != [] && !Before(asc, parent[0].key, cache[0]) {
      var r := Read(ws, rs, src, cache[0]);
      if r.Value? && r.value.None? {
        if parent[0].key == cache[0] {
          SkipShrinks(asc, parent[1..], cache[1..], ws, r.rs, src);
        } else {
          var d := SkipDeletes(asc, cache[1..], Some(parent[0].key), ws, r.rs, src);
          if d.DeletesAt? { SkipShrinks(asc, parent, d.cache, ws, d.rs, src); }
        }
      }
    }
  }

  lemma {:induction false} SkipDeletesTwice(asc: bool, cache: seq<Key>, until: Option<Key>, ws: WriteSet, rs: ReadSet,
                                            src: Key -> Source)
    ensures var d := SkipDeletes(asc, cache, until, ws, rs, src);
            d.DeletesAt? ==> SkipDeletes(asc, d.cache, until, ws, d.rs, src) == d
    decreases |cache|
  {
    if cache != [] {
      var r := Read(ws, rs, src, cache[0]);
      if r.Value? {
        ReadAgain(ws, rs, src, cache[0]);
        if r.value.None? && (until.None? || Before(asc, cache[0], until.value)) {
          SkipDeletesTwice(asc, cache[1..], until, ws, r.rs, src);
        }
      }
    }
  }

  /** Skipping again from where a skip has stopped changes nothing. */
  lemma {:induction false} SkipTwice(asc: bool, parent: seq<Entry>, cache: seq<Key>, ws: WriteSet, rs: ReadSet,
                                     src: Key -> Source)
    ensures var s := SkipUntilExists(asc, parent, cache, ws, rs, src);
            s.SkipAt? ==> SkipUntilExists(asc, s.parent, s.cache, ws, s.rs, src) == s
    decreases |parent| + |cache|
  {
    hide Read, SkipDeletes, Before;
    if parent == [] {
      SkipDeletesTwice(asc, cache, None, ws, rs, src);
    } else if cache != [] && !Before(asc, parent[0].key, cache[0]) {
      var r := Read(ws, rs, src, cache[0]);
      if r.Value? {
        ReadAgain(ws, rs, src, cache[0]);
        if r.value.None? && parent[0].key == cache[0] {
          SkipTwice(asc, parent[1..], cache[1..], ws, r.rs, src);
        } else if r.value.None? {
          var d := SkipDeletes(asc, cache[1..], Some(parent[0].key), ws, r.rs, src);
          if d.DeletesAt? { SkipTwice(asc, parent, d.cache, ws, d.rs, src); }
        }
      }
    }
  }

  /** The keys a caller sees who runs the iterator to its end while `src` does not change. */
  function Drained(asc: bool, parent: seq<Entry>, cache: seq<Key>, ws: WriteSet, rs: ReadSet,
                   src: Key -> Source): seq<Key>
    decreases |parent| + |cache|
  {
    var s := SkipUntilExists(asc, parent, cache, ws, rs, src);
    SkipShrinks(asc, parent, cache, ws, rs, src);
    if !SkipFound(s) then []
    else
      [HeadKey(asc, s.parent, s.cache)]
      + Drained(asc, ParentAfter(asc, s.parent, s.cache), CacheAfter(asc, s.parent, s.cache), ws, s.rs, src)
  }

  lemma {:induction false} DrainedIsRemaining(asc: bool, parent: seq<Entry>, cache: seq<Key>, ws: WriteSet, rs: ReadSet,
                                              src: Key -> Source, val: Key -> Option<Bytes>)
    requires Answers(ws, rs, src, val)
    ensures Drained(asc, parent, cache, ws, rs, src) == EntryKeys(Remaining(asc, parent, Filled(cache, val)))
    decreases |parent| + |cache|
  {
    var s := SkipUntilExists(asc, parent, cache, ws, rs, src);
    SkipStops(asc, parent, cache, ws, rs, src, val);
    SkipShrinks(asc, parent, cache, ws, rs, src);
    if SkipFound(s) {
      AdvanceDropsFirst(asc, s.parent, s.cache, val);
      DrainedIsRemaining(asc, ParentAfter(asc, s.parent, s.cache), CacheAfter(asc, s.parent, s.cache), ws, s.rs, src,
                         val);
    }
  }

  lemma AdvanceDropsFirst(asc: bool, parent: seq<Entry>, cache: seq<Key>, val: Key -> Option<Bytes>)
    requires HeadLives(asc, parent, cache, val)
    ensures |ParentAfter(asc, parent, cache)| + |CacheAfter(asc, parent, cache)| < |parent| + |cache|
    ensures EntryKeys(Remaining(asc, parent, Filled(cache, val)))
         == [HeadKey(asc, parent, cache)]
          + EntryKeys(Remaining(asc, ParentAfter(asc, parent, cache), Filled(CacheAfter(asc, parent, cache), val)))
  {
    if cache != [] { FilledTail(cache, val); }
    if cache != [] && parent != [] {
      BeforeTotal(asc, parent[0].key, cache[0]);
      BeforeNotSelf(asc, cache[0]);
      if Before(asc, parent[0].key, cache[0]) { BeforeIsStrict(asc, parent[0].key, cache[0]); }
    }
    var left := Remaining(asc, parent, Filled(cache, val));
    assert EntryKeys(left) == [left[0].key] + EntryKeys(left[1..]);
  }

  ghost predicate StillAnswers(s: Shared, parent: KVMap, i: nat, ws: WriteSet, val: Key -> Option<Bytes>) {
    forall k: Key :: val(k) == Lookup(Overlay(View(s, parent, i), ws), k)
  }

  /** A transaction that opens an iterator and drains it, with no estimate below it and nothing read or
      changed meanwhile, visits the scan of its view under its own writes. */
  lemma StillDrain(s: Shared, parent: KVMap, i: nat, ws: WriteSet, r: Range, asc: bool)
    requires Inv(s) && NoEstimatesBefore(s, i)
    ensures Drained(asc, EntriesOf(asc, r, parent), Scan(asc, r, Collected(s, i) + ws.Keys), ws, map[],
                    SharedSource(s, parent, i))
         == Scan(asc, r, Overlay(View(s, parent, i), ws).Keys)
  {
    var view := Overlay(View(s, parent, i), ws);
    var val := (k: Key) => Lookup(view, k);
    SourceAnswers(s, parent, i, ws, val);
    var cache := Scan(asc, r, Collected(s, i) + ws.Keys);
    DrainedIsRemaining(asc, EntriesOf(asc, r, parent), cache, ws, map[], SharedSource(s, parent, i), val);
    FilledIsReplay(s, parent, i, ws, r, asc, cache, val);
    MergeIsOverlayScan(asc, r, parent, ReplayWrites(s, i, ws));
    ReplaySeesView(s, parent, i, ws);
  }

  /** An iterator is merged with the reads made so far: drained while the store answers in one way, it visits exactly
      the keys of the range that the execution sees a value for, be it its own, one it read before or the store's. */
  lemma OpenedSeesReads(l: Local, parent: KVMap, items: set<Key>, r: Range, asc: bool, src: Key -> Source,
                        val: Key -> Option<Bytes>)
    requires Answers(l.writeset, l.readset, src, val)
    requires forall k: Key :: k !in items && k !in l.writeset && k !in l.readset ==>
               src(k) == Current(Lookup(parent, k))
    ensures var it := Opened(l, parent, items, r, asc);
            var ks := Drained(asc, it.parent, it.cache, l.writeset, l.readset, src);
            Ordered(asc, ks) && forall k: Key :: k in ks <==> InRange(r, k) && val(k).Some?
  {
    var it := Opened(l, parent, items, r, asc);
    var ws: WriteSet := map k | k in items + l.writeset.Keys + l.readset.Keys :: val(k);
    assert ws.Keys == items + l.writeset.Keys + l.readset.Keys;
    DrainedIsRemaining(asc, it.parent, it.cache, l.writeset, l.readset, src, val);
    FilledIsWrites(asc, r, ws, val);
    MergeIsOverlayScan(asc, r, parent, ws);
    forall k: Key ensures k in Overlay(parent, ws) <==> val(k).Some? {
      assert Lookup(Overlay(parent, ws), k) == if k in ws then ws[k] else Lookup(parent, k);
    }
  }

  lemma SourceAnswers(s: Shared, parent: KVMap, i: nat, ws: WriteSet, val: Key -> Option<Bytes>)
    requires NoEstimatesBefore(s, i) && StillAnswers(s, parent, i, ws, val)
    ensures Answers(ws, map[], SharedSource(s, parent, i), val)
  {
    forall k: Key ensures k !in ws ==> SharedSource(s, parent, i)(k) == Current(val(k)) { ViewReads(s, parent, i, k); }
  }

  lemma FilledIsReplay(s: Shared, parent: KVMap, i: nat, ws: WriteSet, r: Range, asc: bool, cache: seq<Key>,
                       val: Key -> Option<Bytes>)
    requires Inv(s) && cache == Scan(asc, r, Collected(s, i) + ws.Keys) && StillAnswers(s, parent, i, ws, val)
    ensures Filled(cache, val) == WritesOf(asc, r, ReplayWrites(s, i, ws))
  {
    var writes := ReplayWrites(s, i, ws);
    assert writes.Keys == Collected(s, i) + ws.Keys;
    forall k | k in writes ensures writes[k] == val(k) { ReplayFindsVersions(s, i, k); }
    FilledIsWrites(asc, r, writes, val);
  }

  /** Filling in what the writes say gives the writes. */
  lemma FilledIsWrites(asc: bool, r: Range, ws: WriteSet, val: Key -> Option<Bytes>)
    requires forall k :: k in ws ==> ws[k] == val(k)
    ensures Filled(Scan(asc, r, ws.Keys), val) == WritesOf(asc, r, ws)
  {
    var cache, want := Scan(asc, r, ws.Keys), WritesOf(asc, r, ws);
    forall j | 0 <= j < |cache| ensures Filled(cache, val)[j] == want[j] {
      assert WriteKeys(want)[j] == cache[j] && cache[j] in cache;
    }
  }
}

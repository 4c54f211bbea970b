/** An execution during which nothing below its index changes or is an estimate: no call aborts, none gets stuck that
    the serial execution can make, and the record agrees with the store it ran on. */
module StillExecution {
  import opened Bytes
  import opened MergeIterator
  import opened MultiVersion
  import opened Execution
  import opened Simulation
  import opened Replay
  import opened StillScan

  /** The shared store answers every read from `view`. */
  ghost predicate StillSource(src: Key -> Source, view: KVMap) {
    forall k: Key :: src(k) == Current(Lookup(view, k))
  }

  /** Only the collected keys may differ from the parent. */
  ghost predicate Covers(items: set<Key>, parent: KVMap, view: KVMap) {
    forall k: Key :: k !in items ==> Lookup(view, k) == Lookup(parent, k)
  }

  function ValueIn(view: KVMap, ws: WriteSet): Key -> Option<Bytes> {
    (k: Key) => Lookup(Overlay(view, ws), k)
  }

  /** What an iterator opened through these writes yields. */
  ghost function Yields(t: Tracker, view: KVMap): seq<Entry> {
    EntriesOf(t.ascending, t.range, Overlay(view, t.writeset))
  }

  /** The iterator stands before exactly what the serial one has left. */
  ghost predicate LeftOk(it: Iter, view: KVMap) {
    var t := it.tracker;
    && it.nexts <= |Yields(t, view)|
    && Remaining(t.ascending, it.parent, Filled(it.cache, ValueIn(view, t.writeset))) == Yields(t, view)[it.nexts..]
  }

  /** Everything recorded agrees with the view, and every open iterator stands where the serial one does. */
  ghost predicate StillRecord(l: Local, view: KVMap) {
    Agrees(l, view) && forall h :: 0 <= h < |l.iters| && l.iters[h].open ==> LeftOk(l.iters[h], view)
  }

  /** Each key has only the value the view holds. */
  function InView(view: KVMap): Domain {
    (k: Key, v: Option<Bytes>) => v == Lookup(view, k)
  }

  ghost predicate StillOk(l: Local, view: KVMap) {
    LocalOk(InView(view), l) && StillRecord(l, view)
  }

  lemma StillValues(src: Key -> Source, rs: ReadSet, view: KVMap)
    requires StillSource(src, view) && ReadsAgree(rs, view)
    ensures ReadsetOk(InView(view), rs) && SourceOk(InView(view), src)
  {
  }

  lemma CoversIsOk(items: set<Key>, parent: KVMap, view: KVMap)
    requires Covers(items, parent, view)
    ensures ParentOk(InView(view), parent, items)
  {
    forall k: Key | k in parent && k !in items ensures InView(view)(k, Some(parent[k])) {
      assert Lookup(view, k) == Lookup(parent, k);
    }
  }

  // ----- Reading -----

  lemma ReadStill(ws: WriteSet, rs: ReadSet, src: Key -> Source, view: KVMap, k: Key)
    requires StillSource(src, view) && ReadsAgree(rs, view)
    ensures var r := Read(ws, rs, src, k);
            r.Value? && r.value == Lookup(Overlay(view, ws), k) && ReadsAgree(r.rs, view)
  {
    if k !in ws && k !in rs {
      var none: seq<Option<Bytes>> := [];
      assert !HasEqual(none, Lookup(view, k)) && none + [Lookup(view, k)] == [Lookup(view, k)];
    }
  }

  lemma {:induction false} SkipDeletesStill(asc: bool, cache: seq<Key>, until: Option<Key>, ws: WriteSet, rs: ReadSet,
                                            src: Key -> Source, view: KVMap)
    requires StillSource(src, view) && ReadsAgree(rs, view)
    ensures var d := SkipDeletes(asc, cache, until, ws, rs, src); d.DeletesAt? && ReadsAgree(d.rs, view)
    decreases |cache|
  {
    if cache != [] {
      ReadStill(ws, rs, src, view, cache[0]);
      var r := Read(ws, rs, src, cache[0]);
      if r.value.None? && (until.None? || Before(asc, cache[0], until.value)) {
        SkipDeletesStill(asc, cache[1..], until, ws, r.rs, src, view);
      }
    }
  }

  lemma {:induction false} SkipStill(asc: bool, parent: seq<Entry>, cache: seq<Key>, ws: WriteSet, rs: ReadSet,
                                     src: Key -> Source, view: KVMap)
    requires StillSource(src, view) && ReadsAgree(rs, view)
    ensures var s := SkipUntilExists(asc, parent, cache, ws, rs, src); s.SkipAt? && ReadsAgree(s.rs, view)
    decreases |parent| + |cache|
  {
    if parent == [] {
      SkipDeletesStill(asc, cache, None, ws, rs, src, view);
    } else if cache != [] && !Before(asc, parent[0].key, cache[0]) {
      ReadStill(ws, rs, src, view, cache[0]);
      var r := Read(ws, rs, src, cache[0]);
      if r.value.None? {
        if parent[0].key == cache[0] {
          SkipStill(asc, parent[1..], cache[1..], ws, r.rs, src, view);
        } else {
          SkipDeletesStill(asc, cache[1..], Some(parent[0].key), ws, r.rs, src, view);
          var d := SkipDeletes(asc, cache[1..], Some(parent[0].key), ws, r.rs, src);
          SkipStill(asc, parent, d.cache, ws, d.rs, src, view);
        }
      }
    }
  }

  lemma StillAnswersAll(ws: WriteSet, rs: ReadSet, src: Key -> Source, view: KVMap)
    requires StillSource(src, view) && ReadsAgree(rs, view)
    ensures Answers(ws, rs, src, ValueIn(view, ws))
  {
  }

  // ----- Iterators -----

  /** Within its range an iterator sees the writes it was opened with. */
  lemma SameFilled(r: Range, cache: seq<Key>, view: KVMap, ws: WriteSet, tws: WriteSet)
    requires SameOn(r, ws, tws) && forall i :: 0 <= i < |cache| ==> InRange(r, cache[i])
    ensures Filled(cache, ValueIn(view, ws)) == Filled(cache, ValueIn(view, tws))
  {
    forall i | 0 <= i < |cache| ensures ValueIn(view, ws)(cache[i]) == ValueIn(view, tws)(cache[i]) {
      assert cache[i] in ws <==> cache[i] in tws;
    }
  }

  /** Where a skip leads: to the serial iterator's current entry, or to its end. */
  lemma SkipFinds(it: Iter, ws: WriteSet, rs: ReadSet, src: Key -> Source, view: KVMap, s: Skip)
    requires LiveOk(InView(view), it, ws, rs) && StillSource(src, view) && ReadsAgree(rs, view)
    requires LeftOk(it, view) && s == SkipOf(it, ws, rs, src)
    ensures s.SkipAt? && ReadsAgree(s.rs, view)
    ensures LeftOk(Placed(it, s), view)
    ensures SkipFound(s) <==> it.nexts < |Yields(it.tracker, view)|
    ensures SkipFound(s) ==> HeadLives(it.tracker.ascending, s.parent, s.cache, ValueIn(view, it.tracker.writeset))
  {
    var t := it.tracker;
    SkipStill(t.ascending, it.parent, it.cache, ws, rs, src, view);
    StillAnswersAll(ws, rs, src, view);
    SkipStops(t.ascending, it.parent, it.cache, ws, rs, src, ValueIn(view, ws));
    StillValues(src, rs, view);
    PlacedOk(InView(view), it, ws, rs, src, s);
    SameFilled(t.range, it.cache, view, ws, t.writeset);
    SameFilled(t.range, s.cache, view, ws, t.writeset);
    SameHead(t, s, view, ws);
    FoundHasEntry(t.ascending, s, ValueIn(view, ws));
  }

  lemma SameHead(t: Tracker, s: Skip, view: KVMap, ws: WriteSet)
    requires s.SkipAt? && Filled(s.cache, ValueIn(view, ws)) == Filled(s.cache, ValueIn(view, t.writeset))
    ensures s.cache != [] ==> ValueIn(view, ws)(s.cache[0]) == ValueIn(view, t.writeset)(s.cache[0])
  {
    if s.cache != [] {
      assert Filled(s.cache, ValueIn(view, ws))[0] == Filled(s.cache, ValueIn(view, t.writeset))[0];
    }
  }

  lemma FoundHasEntry(asc: bool, s: Skip, val: Key -> Option<Bytes>)
    requires s.SkipAt?
    requires if SkipFound(s) then HeadLives(asc, s.parent, s.cache, val) else s.parent == [] && s.cache == []
    ensures SkipFound(s) <==> Remaining(asc, s.parent, Filled(s.cache, val)) != []
  {
    if SkipFound(s) { AdvanceDropsFirst(asc, s.parent, s.cache, val); }
  }

  /** The current entry of the merge, and what is left after it. */
  lemma HeadIsEntry(asc: bool, parent: seq<Entry>, cache: seq<Key>, val: Key -> Option<Bytes>)
    requires HeadLives(asc, parent, cache, val)
    ensures var left := Remaining(asc, parent, Filled(cache, val));
            && left != [] && left[0].key == HeadKey(asc, parent, cache)
            && (!FromCache(asc, parent, cache) ==> left[0] == parent[0])
            && left[1..] == Remaining(asc, ParentAfter(asc, parent, cache), Filled(CacheAfter(asc, parent, cache), val))
  {
    if cache != [] { FilledTail(cache, val); }
    if cache != [] && parent != [] {
      BeforeTotal(asc, parent[0].key, cache[0]);
      BeforeNotSelf(asc, cache[0]);
      if Before(asc, parent[0].key, cache[0]) { BeforeIsStrict(asc, parent[0].key, cache[0]); }
    }
  }

  lemma YieldsScan(t: Tracker, view: KVMap)
    ensures EntryKeys(Yields(t, view)) == FreshScan(view, t)
  {
  }

  lemma OneMoreVisited(visited: seq<Key>, scan: seq<Key>)
    requires visited <= scan && |visited| < |scan|
    ensures visited + [scan[|visited|]] <= scan
  {
  }

  /** A found entry is tracked as the next of the scan. */
  lemma ShownStill(it: Iter, s: Skip, view: KVMap)
    requires s.SkipAt? && LeftOk(Placed(it, s), view) && IterAgrees(it, view) && !it.ended
    requires it.nexts <= |it.visited| <= it.nexts + 1
    requires HeadLives(it.tracker.ascending, s.parent, s.cache, ValueIn(view, it.tracker.writeset))
    ensures IterAgrees(Shown(it, s), view) && LeftOk(Shown(it, s), view)
  {
    var t, k := it.tracker, HeadKey(it.tracker.ascending, s.parent, s.cache);
    HeadIsEntry(t.ascending, s.parent, s.cache, ValueIn(view, t.writeset));
    YieldsScan(t, view);
    assert Yields(t, view)[it.nexts].key == k && FreshScan(view, t)[it.nexts] == k;
    if |it.visited| == it.nexts { OneMoreVisited(it.visited, FreshScan(view, t)); }
    assert FreshScan(view, Shown(it, s).tracker) == FreshScan(view, t);
    assert Yields(Shown(it, s).tracker, view) == Yields(t, view);
  }

  /** At the end everything has been visited. */
  lemma EndStill(it: Iter, s: Skip, view: KVMap)
    requires s.SkipAt? && LeftOk(Placed(it, s), view) && IterAgrees(it, view)
    requires it.nexts == |it.visited| == |Yields(it.tracker, view)|
    ensures IterAgrees(End(Placed(it, s)), view) && LeftOk(End(Placed(it, s)), view)
  {
    var t := it.tracker;
    YieldsScan(t, view);
    assert FreshScan(view, End(Placed(it, s)).tracker) == FreshScan(view, t);
    assert Yields(End(Placed(it, s)).tracker, view) == Yields(t, view);
  }

  lemma AdvanceStill(u: Iter, view: KVMap)
    requires LeftOk(u, view) && IterAgrees(u, view)
    requires HeadLives(u.tracker.ascending, u.parent, u.cache, ValueIn(view, u.tracker.writeset))
    ensures IterAgrees(Advance(u), view) && LeftOk(Advance(u), view)
  {
    HeadIsEntry(u.tracker.ascending, u.parent, u.cache, ValueIn(view, u.tracker.writeset));
    var es := Yields(u.tracker, view);
    assert es[u.nexts..][1..] == es[u.nexts + 1..];
  }

  /** Filling in the values of the collected, written and read keys gives the store seen through the writes. */
  lemma OpenedOverlay(keys: set<Key>, parent: KVMap, view: KVMap, tws: WriteSet, ws: WriteSet)
    requires tws.Keys <= keys && forall k: Key :: k !in keys ==> Lookup(view, k) == Lookup(parent, k)
    requires ws.Keys == keys && forall k :: k in ws ==> ws[k] == Lookup(Overlay(view, tws), k)
    ensures Overlay(parent, ws) == Overlay(view, tws)
  {
    OverlayUnique(view, tws, Overlay(parent, ws));
  }

  lemma MergedYields(asc: bool, r: Range, keys: set<Key>, parent: KVMap, view: KVMap, tws: WriteSet)
    requires tws.Keys <= keys && forall k: Key :: k !in keys ==> Lookup(view, k) == Lookup(parent, k)
    ensures Remaining(asc, EntriesOf(asc, r, parent), Filled(Scan(asc, r, keys), ValueIn(view, tws)))
         == EntriesOf(asc, r, Overlay(view, tws))
  {
    var ws: WriteSet := map k | k in keys :: Lookup(Overlay(view, tws), k);
    assert ws.Keys == keys;
    OpenedOverlay(keys, parent, view, tws, ws);
    FilledIsWrites(asc, r, ws, ValueIn(view, tws));
    MergeIsOverlayScan(asc, r, parent, ws);
  }

  /** A newly opened iterator stands before all of the scan. */
  lemma OpenedStill(l: Local, parent: KVMap, items: set<Key>, r: Range, asc: bool, view: KVMap)
    requires Covers(items, parent, view)
    ensures LeftOk(Opened(l, parent, items, r, asc), view) && IterAgrees(Opened(l, parent, items, r, asc), view)
  {
    var it := Opened(l, parent, items, r, asc);
    MergedYields(asc, r, items + l.writeset.Keys + l.readset.Keys, parent, view, l.writeset);
    assert Yields(it.tracker, view)[0..] == Yields(it.tracker, view);
  }

  // ----- Calls -----

  lemma UpdateStill(l: Local, h: nat, it: Iter, rs: ReadSet, r: Resp, view: KVMap)
    requires StillRecord(l, view) && h < |l.iters| && ReadsAgree(rs, view) && IterAgrees(it, view)
    requires it.open ==> LeftOk(it, view)
    ensures StillRecord(Reply(UpdateIter(l, h, it, rs), r), view)
  {
    var l' := Reply(UpdateIter(l, h, it, rs), r);
    forall j | 0 <= j < |l'.iters|
      ensures IterAgrees(l'.iters[j], view) && (l'.iters[j].open ==> LeftOk(l'.iters[j], view))
    {
      if j != h { assert IterAgrees(l.iters[j], view); }
    }
  }

  lemma GetStill(l: Local, src: Key -> Source, k: Key, view: KVMap)
    requires StillRecord(l, view) && StillSource(src, view)
    ensures var r := Read(l.writeset, l.readset, src, k);
            r.Value? && StillRecord(Reply(l.(readset := r.rs), Got(r.value)), view)
  {
    ReadStill(l.writeset, l.readset, src, view, k);
  }

  lemma OpenStill(l: Local, parent: KVMap, items: set<Key>, r: Range, asc: bool, view: KVMap)
    requires StillRecord(l, view) && Covers(items, parent, view)
    ensures StillRecord(Reply(l.(iters := l.iters + [Opened(l, parent, items, r, asc)]), Done), view)
  {
    hide IterAgrees, LeftOk, ReadsAgree, Opened, Covers;
    var it := Opened(l, parent, items, r, asc);
    OpenedStill(l, parent, items, r, asc, view);
    var l' := Reply(l.(iters := l.iters + [it]), Done);
    forall h | 0 <= h < |l'.iters|
      ensures IterAgrees(l'.iters[h], view) && (l'.iters[h].open ==> LeftOk(l'.iters[h], view))
    {
      if h < |l.iters| { assert IterAgrees(l.iters[h], view); }
    }
  }

  /** A skip of an open iterator, with everything known about it. */
  lemma OpenIterSkips(l: Local, h: nat, src: Key -> Source, view: KVMap, s: Skip)
    requires StillOk(l, view) && Usable(l, h) && StillSource(src, view) && s == Skipped(l, h, src)
    ensures s.SkipAt? && ReadsAgree(s.rs, view) && LeftOk(Placed(l.iters[h], s), view) && IterAgrees(l.iters[h], view)
    ensures SkipFound(s) <==> l.iters[h].nexts < |Yields(l.iters[h].tracker, view)|
    ensures SkipFound(s) ==>
              HeadLives(l.iters[h].tracker.ascending, s.parent, s.cache, ValueIn(view, l.iters[h].tracker.writeset))
    ensures l.iters[h].nexts <= |l.iters[h].visited| <= l.iters[h].nexts + 1
    ensures if SkipFound(s) then !l.iters[h].ended else |l.iters[h].visited| == l.iters[h].nexts
  {
    var it := l.iters[h];
    assert IterOk(InView(view), it, l.writeset, l.readset) && LeftOk(it, view) && IterAgrees(it, view);
    SkipFinds(it, l.writeset, l.readset, src, view, s);
    StillValues(src, l.readset, view);
    PlacedOk(InView(view), it, l.writeset, l.readset, src, s);
  }

  lemma EntryAtSerial(l: Local, h: nat, view: KVMap)
    requires Usable(l, h)
    ensures EntryAt(SerialOf(l, view), h) <==> l.iters[h].nexts < |Yields(l.iters[h].tracker, view)|
  {
    assert SerialOf(l, view).iters[h] == SerialIterOf(l.iters[h], view);
    YieldsScan(l.iters[h].tracker, view);
  }

  lemma ShowStill(l: Local, h: nat, src: Key -> Source, view: KVMap, s: Skip, rs: ReadSet, r: Resp)
    requires StillOk(l, view) && Usable(l, h) && StillSource(src, view) && s == Skipped(l, h, src)
    requires SkipFound(s) && ReadsAgree(rs, view)
    ensures StillRecord(Reply(UpdateIter(l, h, Shown(l.iters[h], s), rs), r), view)
  {
    OpenIterSkips(l, h, src, view, s);
    ShownStill(l.iters[h], s, view);
    UpdateStill(l, h, Shown(l.iters[h], s), rs, r, view);
  }

  lemma IsValidStill(l: Local, h: nat, src: Key -> Source, view: KVMap)
    requires StillOk(l, view) && Usable(l, h) && StillSource(src, view)
    ensures StepIsValid(l, h, src).Stepped? && StillRecord(StepIsValid(l, h, src).local, view)
  {
    var s := Skipped(l, h, src);
    OpenIterSkips(l, h, src, view, s);
    if SkipFound(s) {
      ShowStill(l, h, src, view, s, s.rs, Is(true));
    } else {
      EndStill(l.iters[h], s, view);
      UpdateStill(l, h, End(Placed(l.iters[h], s)), s.rs, Is(false), view);
    }
  }

  lemma GetKeyStill(l: Local, h: nat, src: Key -> Source, view: KVMap)
    requires StillOk(l, view) && Usable(l, h) && StillSource(src, view)
    requires l.iters[h].nexts < |Yields(l.iters[h].tracker, view)|
    ensures StepGetKey(l, h, src).Stepped? && StillRecord(StepGetKey(l, h, src).local, view)
  {
    var s := Skipped(l, h, src);
    OpenIterSkips(l, h, src, view, s);
    ShowStill(l, h, src, view, s, s.rs, At(HeadKey(l.iters[h].tracker.ascending, s.parent, s.cache)));
    GetKeyIs(l, h, src, s);
  }

  lemma GetKeyIs(l: Local, h: nat, src: Key -> Source, s: Skip)
    requires Usable(l, h) && s == Skipped(l, h, src) && SkipFound(s)
    ensures StepGetKey(l, h, src) == Stepped(Reply(UpdateIter(l, h, Shown(l.iters[h], s), s.rs),
                                                   At(HeadKey(l.iters[h].tracker.ascending, s.parent, s.cache))))
  {
  }

  lemma NextStill(l: Local, h: nat, src: Key -> Source, view: KVMap)
    requires StillOk(l, view) && Usable(l, h) && StillSource(src, view)
    requires l.iters[h].nexts < |Yields(l.iters[h].tracker, view)|
    ensures StepNext(l, h, src).Stepped? && StillRecord(StepNext(l, h, src).local, view)
  {
    var s := Skipped(l, h, src);
    OpenIterSkips(l, h, src, view, s);
    NextRecords(l, h, src, view, s);
    NextIs(l, h, src, s);
  }

  lemma NextIs(l: Local, h: nat, src: Key -> Source, s: Skip)
    requires Usable(l, h) && s == Skipped(l, h, src) && SkipFound(s)
    ensures StepNext(l, h, src) == Stepped(Reply(UpdateIter(l, h, Advance(Shown(l.iters[h], s)), s.rs), Done))
  {
  }

  lemma NextRecords(l: Local, h: nat, src: Key -> Source, view: KVMap, s: Skip)
    requires StillOk(l, view) && Usable(l, h) && StillSource(src, view) && s == Skipped(l, h, src) && SkipFound(s)
    ensures StillRecord(Reply(UpdateIter(l, h, Advance(Shown(l.iters[h], s)), s.rs), Done), view)
  {
    OpenIterSkips(l, h, src, view, s);
    var u := Shown(l.iters[h], s);
    ShownStill(l.iters[h], s, view);
    AdvanceStill(u, view);
    UpdateStill(l, h, Advance(u), s.rs, Done, view);
  }

  /** The value shown is recorded as what the view holds. */
  lemma EntryValueStill(l: Local, h: nat, src: Key -> Source, view: KVMap, s: Skip)
    requires StillOk(l, view) && Usable(l, h) && StillSource(src, view) && s == Skipped(l, h, src) && SkipFound(s)
    ensures var e := EntryValue(s, l.iters[h].tracker.ascending, l.writeset, src); e.Value? && ReadsAgree(e.rs, view)
  {
    hide StillSource, SourceOk, ReadsAgree, Overlay, SidesOk, Shadowed, SameOn, Passed, Settled, ReadsetOk,
         SkipUntilExists;
    var it := l.iters[h];
    var t := it.tracker;
    OpenIterSkips(l, h, src, view, s);
    assert IterOk(InView(view), it, l.writeset, l.readset);
    if FromCache(t.ascending, s.parent, s.cache) {
      ReadStill(l.writeset, s.rs, src, view, s.cache[0]);
    } else {
      StillValues(src, l.readset, view);
      PlacedOk(InView(view), it, l.writeset, l.readset, src, s);
      ParentEntryUnshadowed(InView(view), Placed(it, s), s, l.writeset);
      HeadIsEntry(t.ascending, s.parent, s.cache, ValueIn(view, t.writeset));
      assert Yields(t, view)[it.nexts] == s.parent[0];
      ParentValueAgrees(s.rs, s.parent[0], view, t.writeset);
    }
  }

  lemma ParentValueAgrees(rs: ReadSet, e: Entry, view: KVMap, tws: WriteSet)
    requires ReadsAgree(rs, view) && e.key !in tws && Lookup(Overlay(view, tws), e.key) == Some(e.value)
    ensures ReadsAgree(UpdateReadSet(rs, e.key, Some(e.value)), view)
  {
    assert Lookup(view, e.key) == Some(e.value);
    if e.key in rs {
      assert rs[e.key][0] == Some(e.value) && HasEqual(rs[e.key], Some(e.value));
      assert rs[e.key := rs[e.key]] == rs;
    } else {
      var none: seq<Option<Bytes>> := [];
      assert !HasEqual(none, Some(e.value)) && none + [Some(e.value)] == [Some(e.value)];
    }
  }

  lemma GetValueStill(l: Local, h: nat, src: Key -> Source, view: KVMap)
    requires StillOk(l, view) && Usable(l, h) && StillSource(src, view)
    requires l.iters[h].nexts < |Yields(l.iters[h].tracker, view)|
    ensures StepGetValue(l, h, src).Stepped? && StillRecord(StepGetValue(l, h, src).local, view)
  {
    var s := Skipped(l, h, src);
    OpenIterSkips(l, h, src, view, s);
    EntryValueStill(l, h, src, view, s);
    var e := EntryValue(s, l.iters[h].tracker.ascending, l.writeset, src);
    ShowStill(l, h, src, view, s, e.rs, Got(e.value));
    GetValueIs(l, h, src, s, e);
  }

  lemma GetValueIs(l: Local, h: nat, src: Key -> Source, s: Skip, e: ReadResult)
    requires Usable(l, h) && s == Skipped(l, h, src) && SkipFound(s)
    requires e == EntryValue(s, l.iters[h].tracker.ascending, l.writeset, src) && e.Value?
    ensures StepGetValue(l, h, src) == Stepped(Reply(UpdateIter(l, h, Shown(l.iters[h], s), e.rs), Got(e.value)))
  {
  }

  lemma UsableIsOpen(l: Local, h: nat, view: KVMap)
    ensures OpenAt(SerialOf(l, view), h) <==> Usable(l, h)
  {
    if h < |l.iters| { assert SerialOf(l, view).iters[h] == SerialIterOf(l.iters[h], view); }
  }

  lemma PutStill(l: Local, k: Key, v: Option<Bytes>, view: KVMap)
    requires SerialStep(Put(k, v), SerialOf(l, view)).Some?
    ensures forall h: nat :: Usable(l, h) ==> !InRange(l.iters[h].tracker.range, k)
  {
    forall h: nat | Usable(l, h) ensures !InRange(l.iters[h].tracker.range, k) {
      UsableIsOpen(l, h, view);
      assert SerialOf(l, view).iters[h] == SerialIterOf(l.iters[h], view);
      assert OpenAt(SerialOf(l, view), h);
    }
  }

  /** Every call the serial execution can make goes through, and the record still agrees. */
  lemma StillStep(op: Op, l: Local, parent: KVMap, items: set<Key>, src: Key -> Source, view: KVMap)
    requires StillOk(l, view) && StillSource(src, view) && Covers(items, parent, view)
    requires SerialStep(op, SerialOf(l, view)).Some?
    ensures LocalStep(op, l, parent, items, src).Stepped?
    ensures StepOk(InView(view), op, l, LocalStep(op, l, parent, items, src).local)
    ensures StillOk(LocalStep(op, l, parent, items, src).local, view)
  {
    match op {
      case Commit =>
      case Get(k) => GetStill(l, src, k, view);
      case Put(k, v) => PutStill(l, k, v, view);
      case Open(r, asc) => OpenStill(l, parent, items, r, asc, view);
      case IsValid(h) => UsableIsOpen(l, h, view); IsValidStill(l, h, src, view);
      case GetKey(h) => UsableIsOpen(l, h, view); EntryAtSerial(l, h, view); GetKeyStill(l, h, src, view);
      case GetValue(h) => UsableIsOpen(l, h, view); EntryAtSerial(l, h, view); GetValueStill(l, h, src, view);
      case Next(h) => UsableIsOpen(l, h, view); EntryAtSerial(l, h, view); NextStill(l, h, src, view);
      case Close(h) =>
        UsableIsOpen(l, h, view);
        UpdateStill(l, h, l.iters[h].(open := false), l.readset, Done, view);
    }
    StillValues(src, l.readset, view);
    CoversIsOk(items, parent, view);
    EveryStepOk(InView(view), op, l, parent, items, src);
  }
}

/** Each call of a speculative execution keeps its invariant, only adds to what is recorded, and,
    when the record agrees with a store, answers as the serial execution on that store answers. */
module Replay {
  import opened Bytes
  import opened MergeIterator
  import opened MultiVersion
  import opened Execution
  import opened Simulation

  /** The record only grows, and the fixed part of each tracker stays. */
  ghost predicate IterGrows(it: Iter, it': Iter) {
    && it'.tracker.range == it.tracker.range && it'.tracker.ascending == it.tracker.ascending
    && it'.tracker.writeset == it.tracker.writeset
    && it.visited <= it'.visited && (it.ended ==> it'.ended && it'.visited == it.visited)
  }

  ghost predicate Grows(l: Local, l': Local) {
    && Extends(l.readset, l'.readset) && |l.iters| <= |l'.iters|
    && forall h :: 0 <= h < |l.iters| ==> IterGrows(l.iters[h], l'.iters[h])
  }

  /** Agreement with a store is inherited by every earlier record. */
  lemma AgreesEarlier(dom: Domain, l: Local, l': Local, view: KVMap)
    requires ReadsetOk(dom, l.readset) && Grows(l, l') && Agrees(l', view)
    ensures Agrees(l, view)
  {
    forall k | k in l.readset ensures l.readset[k] == [Lookup(view, k)] {
      assert l.readset[k] <= l'.readset[k] && l'.readset[k] == [Lookup(view, k)];
    }
    forall h | 0 <= h < |l.iters| ensures IterAgrees(l.iters[h], view) {
      assert IterGrows(l.iters[h], l'.iters[h]) && IterAgrees(l'.iters[h], view);
    }
  }

  /** Only where an earlier transaction wrote may the parent hold a value that the key may not have. */
  ghost predicate ParentOk(dom: Domain, parent: KVMap, items: set<Key>) {
    forall k: Key :: k in parent && k !in items ==> dom(k, Some(parent[k]))
  }

  /** The conclusion for one call. */
  ghost predicate StepOk(dom: Domain, op: Op, l: Local, l': Local) {
    && LocalOk(dom, l') && Grows(l, l')
    && forall view: KVMap :: Agrees(l', view) ==> SerialStep(op, SerialOf(l, view)) == Some(SerialOf(l', view))
  }

  // ----- Reads and writes -----

  lemma OthersKeep(dom: Domain, l: Local, rs: ReadSet, h: int)
    requires LocalOk(dom, l) && Extends(l.readset, rs) && 0 <= h < |l.iters|
    ensures IterOk(dom, l.iters[h], l.writeset, rs)
  {
    assert IterOk(dom, l.iters[h], l.writeset, l.readset);
    if l.iters[h].open { LiveExtends(dom, l.iters[h], l.writeset, l.readset, rs); }
  }

  lemma GetStep(dom: Domain, l: Local, src: Key -> Source, k: Key)
    requires LocalOk(dom, l) && SourceOk(dom, src) && Read(l.writeset, l.readset, src, k).Value?
    ensures var r := Read(l.writeset, l.readset, src, k);
            StepOk(dom, Get(k), l, Reply(l.(readset := r.rs), Got(r.value)))
  {
    var r := Read(l.writeset, l.readset, src, k);
    var l' := Reply(l.(readset := r.rs), Got(r.value));
    ReadOk(dom, l.writeset, l.readset, src, k);
    forall h | 0 <= h < |l.iters|
      ensures IterOk(dom, l'.iters[h], l'.writeset, l'.readset)
    {
      OthersKeep(dom, l, r.rs, h);
    }
    forall view: KVMap | Agrees(l', view) ensures SerialStep(Get(k), SerialOf(l, view)) == Some(SerialOf(l', view)) {
      KnownIsOverlay(l.writeset, r.rs, view, k, r.value);
    }
  }

  lemma SettledPut(asc: bool, r: Range, parent: seq<Entry>, cache: seq<Key>, ws: WriteSet, rs: ReadSet, k: Key,
                   v: Option<Bytes>)
    requires SidesOk(asc, r, parent, cache) && Settled(asc, parent, cache, ws, rs) && !InRange(r, k)
    ensures Settled(asc, parent, cache, ws[k := v], rs)
  {
    if FromCache(asc, parent, cache) {
      var x: Bytes :| KnownAs(ws, rs, cache[0], Some(x));
      assert KnownAs(ws[k := v], rs, cache[0], Some(x));
    }
  }

  lemma IterPut(dom: Domain, it: Iter, ws: WriteSet, rs: ReadSet, k: Key, v: Option<Bytes>)
    requires LiveOk(dom, it, ws, rs) && !InRange(it.tracker.range, k)
    ensures LiveOk(dom, it, ws[k := v], rs)
  {
    if |it.visited| == it.nexts + 1 {
      SettledPut(it.tracker.ascending, it.tracker.range, it.parent, it.cache, ws, rs, k, v);
    }
  }

  lemma AssignOverlay(view: KVMap, ws: WriteSet, k: Key, v: Option<Bytes>)
    ensures Assign(Overlay(view, ws), k, v) == Overlay(view, ws[k := v])
  {
    OverlayUnique(view, ws[k := v], Assign(Overlay(view, ws), k, v));
  }

  lemma PutStep(dom: Domain, l: Local, k: Key, v: Option<Bytes>)
    requires LocalOk(dom, l)
    requires forall h: nat :: Usable(l, h) ==> !InRange(l.iters[h].tracker.range, k)
    ensures StepOk(dom, Put(k, v), l, Reply(l.(writeset := l.writeset[k := v]), Done))
  {
    var l' := Reply(l.(writeset := l.writeset[k := v]), Done);
    forall h | 0 <= h < |l.iters| ensures IterOk(dom, l'.iters[h], l'.writeset, l'.readset) {
      assert IterOk(dom, l.iters[h], l.writeset, l.readset);
      if l.iters[h].open {
        assert Usable(l, h);
        IterPut(dom, l.iters[h], l.writeset, l.readset, k, v);
      }
    }
    forall view: KVMap | Agrees(l', view) ensures SerialStep(Put(k, v), SerialOf(l, view)) == Some(SerialOf(l', view)) {
      AssignOverlay(view, l.writeset, k, v);
      forall h: nat | OpenAt(SerialOf(l, view), h) ensures !InRange(SerialOf(l, view).iters[h].range, k) {
        assert Usable(l, h);
      }
    }
  }

  // ----- Iterators -----

  lemma OpenedOk(dom: Domain, l: Local, parent: KVMap, items: set<Key>, r: Range, asc: bool)
    requires ParentOk(dom, parent, items)
    ensures IterOk(dom, Opened(l, parent, items, r, asc), l.writeset, l.readset)
  {
    var it := Opened(l, parent, items, r, asc);
    assert TrackerOk(it) by { assert Elements<Key>([]) == {}; }
    OpenedSides(parent, items + l.writeset.Keys + l.readset.Keys, r, asc);
    forall i | 0 <= i < |it.parent| && it.parent[i].key !in it.cache
      ensures dom(it.parent[i].key, Some(it.parent[i].value))
    {
      assert EntryKeys(it.parent)[i] in EntryKeys(it.parent);
    }
  }

  lemma OpenedSides(parent: KVMap, ks: set<Key>, r: Range, asc: bool)
    ensures SidesOk(asc, r, EntriesOf(asc, r, parent), Scan(asc, r, ks))
  {
    var es, ks := EntriesOf(asc, r, parent), Scan(asc, r, ks);
    forall i | 0 <= i < |es| ensures InRange(r, es[i].key) {
      assert EntryKeys(es)[i] in EntryKeys(es);
    }
    forall i | 0 <= i < |ks| ensures InRange(r, ks[i]) { assert ks[i] in ks; }
  }

  lemma OpenStep(dom: Domain, l: Local, parent: KVMap, items: set<Key>, r: Range, asc: bool)
    requires LocalOk(dom, l) && ParentOk(dom, parent, items)
    ensures StepOk(dom, Open(r, asc), l, Reply(l.(iters := l.iters + [Opened(l, parent, items, r, asc)]), Done))
  {
    var it := Opened(l, parent, items, r, asc);
    OpenedOk(dom, l, parent, items, r, asc);
    AppendIterOk(dom, l, it);
    forall view: KVMap
      ensures SerialStep(Open(r, asc), SerialOf(l, view))
           == Some(SerialOf(Reply(l.(iters := l.iters + [it]), Done), view))
    {
      OpenSerial(l, parent, items, r, asc, view);
    }
  }

  lemma AppendIterOk(dom: Domain, l: Local, it: Iter)
    requires LocalOk(dom, l) && IterOk(dom, it, l.writeset, l.readset)
    ensures LocalOk(dom, Reply(l.(iters := l.iters + [it]), Done)) && Grows(l, Reply(l.(iters := l.iters + [it]), Done))
  {
    var l' := Reply(l.(iters := l.iters + [it]), Done);
    forall h | 0 <= h < |l'.iters| ensures IterOk(dom, l'.iters[h], l'.writeset, l'.readset) {
      if h < |l.iters| { assert IterOk(dom, l.iters[h], l.writeset, l.readset); }
    }
  }

  lemma OpenSerial(l: Local, parent: KVMap, items: set<Key>, r: Range, asc: bool, view: KVMap)
    ensures SerialStep(Open(r, asc), SerialOf(l, view))
         == Some(SerialOf(Reply(l.(iters := l.iters + [Opened(l, parent, items, r, asc)]), Done), view))
  {
    var it := Opened(l, parent, items, r, asc);
    var l' := Reply(l.(iters := l.iters + [it]), Done);
    assert SerialOf(l', view).iters == SerialOf(l, view).iters + [SerialIterOf(it, view)];
  }

  /** Replacing one iterator by a grown one, with a grown readset. */
  lemma UpdateIterOk(dom: Domain, l: Local, h: nat, it: Iter, rs: ReadSet, r: Resp)
    requires LocalOk(dom, l) && h < |l.iters| && Extends(l.readset, rs) && ReadsetOk(dom, rs)
    requires IterOk(dom, it, l.writeset, rs) && IterGrows(l.iters[h], it)
    ensures LocalOk(dom, Reply(UpdateIter(l, h, it, rs), r)) && Grows(l, Reply(UpdateIter(l, h, it, rs), r))
  {
    var l' := Reply(UpdateIter(l, h, it, rs), r);
    forall j | 0 <= j < |l'.iters| ensures IterOk(dom, l'.iters[j], l'.writeset, l'.readset) {
      if j != h { OthersKeep(dom, l, rs, j); }
    }
  }

  lemma UpdateIterSerial(l: Local, h: nat, it: Iter, rs: ReadSet, r: Resp, view: KVMap)
    requires h < |l.iters|
    ensures SerialOf(Reply(UpdateIter(l, h, it, rs), r), view)
         == Answer(SerialOf(l, view).(iters := SerialOf(l, view).iters[h := SerialIterOf(it, view)]), r)
  {
    var l' := Reply(UpdateIter(l, h, it, rs), r);
    assert SerialOf(l', view).iters == SerialOf(l, view).iters[h := SerialIterOf(it, view)];
  }

  lemma SameSerialIter(l: Local, h: nat, it: Iter, view: KVMap)
    requires h < |l.iters| && SerialIterOf(it, view) == SerialIterOf(l.iters[h], view)
    ensures SerialOf(l, view).iters[h := SerialIterOf(it, view)] == SerialOf(l, view).iters
  {
  }

  lemma CloseStep(dom: Domain, l: Local, h: nat)
    requires LocalOk(dom, l) && Usable(l, h)
    ensures StepOk(dom, Close(h), l, Reply(UpdateIter(l, h, l.iters[h].(open := false), l.readset), Done))
  {
    var it := l.iters[h].(open := false);
    assert IterOk(dom, l.iters[h], l.writeset, l.readset);
    UpdateIterOk(dom, l, h, it, l.readset, Done);
    forall view: KVMap ensures
      SerialStep(Close(h), SerialOf(l, view)) == Some(SerialOf(Reply(UpdateIter(l, h, it, l.readset), Done), view))
    {
      CloseSerial(l, h, view);
    }
  }

  lemma CloseSerial(l: Local, h: nat, view: KVMap)
    requires Usable(l, h)
    ensures SerialStep(Close(h), SerialOf(l, view))
         == Some(SerialOf(Reply(UpdateIter(l, h, l.iters[h].(open := false), l.readset), Done), view))
  {
    UpdateIterSerial(l, h, l.iters[h].(open := false), l.readset, Done, view);
  }

  /** After a skip that found an entry: the entry is tracked, and it is the serial iterator's entry. */
  lemma ShownOk(dom: Domain, l: Local, h: nat, src: Key -> Source, s: Skip)
    requires LocalOk(dom, l) && SourceOk(dom, src) && Usable(l, h) && s == Skipped(l, h, src) && SkipFound(s)
    ensures ReadsetOk(dom, s.rs) && Extends(l.readset, s.rs)
    ensures var u := Shown(l.iters[h], s);
            && IterOk(dom, u, l.writeset, s.rs) && IterGrows(l.iters[h], u) && LiveOk(dom, u, l.writeset, s.rs)
            && |u.visited| == u.nexts + 1 && u.nexts == l.iters[h].nexts && u.open
            && u.visited[u.nexts] == HeadKey(u.tracker.ascending, s.parent, s.cache)
            && u.parent == s.parent && u.cache == s.cache
            && Settled(u.tracker.ascending, s.parent, s.cache, l.writeset, s.rs)
  {
    var it := l.iters[h];
    assert IterOk(dom, it, l.writeset, l.readset);
    PlacedOk(dom, it, l.writeset, l.readset, src, s);
    TouchOk(dom, Placed(it, s), l.writeset, s.rs);
  }

  /** A tracked current entry of an agreeing iterator is the serial iterator's current entry. */
  lemma ShownEntry(l: Local, h: nat, u: Iter, view: KVMap)
    requires Usable(l, h) && IterGrows(l.iters[h], u) && u.nexts == l.iters[h].nexts
    requires |u.visited| == u.nexts + 1 && IterAgrees(u, view)
    ensures EntryAt(SerialOf(l, view), h)
    ensures SerialOf(l, view).iters[h].keys[SerialOf(l, view).iters[h].pos] == u.visited[u.nexts]
  {
    assert SerialOf(l, view).iters[h] == SerialIterOf(l.iters[h], view);
    assert u.visited <= FreshScan(view, u.tracker) == FreshScan(view, l.iters[h].tracker);
  }

  lemma AgreesAt(l: Local, h: nat, it: Iter, rs: ReadSet, r: Resp, view: KVMap)
    requires h < |l.iters| && Agrees(Reply(UpdateIter(l, h, it, rs), r), view)
    ensures IterAgrees(it, view) && ReadsAgree(rs, view)
  {
    assert Reply(UpdateIter(l, h, it, rs), r).iters[h] == it;
  }

  /** `u` is the iterator `h` of `l` with its current entry tracked. */
  ghost predicate Tracked(l: Local, h: nat, u: Iter) {
    && Usable(l, h) && IterGrows(l.iters[h], u) && u.open
    && u.nexts == l.iters[h].nexts && |u.visited| == u.nexts + 1
  }

  /** Showing an entry is answered alike, and moves nothing in the serial execution. */
  lemma ShownSerial(l: Local, h: nat, u: Iter, rs: ReadSet, r: Resp, view: KVMap)
    requires Tracked(l, h, u) && Agrees(Reply(UpdateIter(l, h, u, rs), r), view)
    ensures EntryAt(SerialOf(l, view), h) && ReadsAgree(rs, view)
    ensures SerialOf(l, view).iters[h] == SerialIterOf(l.iters[h], view)
    ensures SerialOf(l, view).iters[h].keys[SerialOf(l, view).iters[h].pos] == u.visited[u.nexts]
    ensures SerialOf(Reply(UpdateIter(l, h, u, rs), r), view) == Answer(SerialOf(l, view), r)
  {
    AgreesAt(l, h, u, rs, r, view);
    ShownEntry(l, h, u, view);
    UpdateIterSerial(l, h, u, rs, r, view);
    SameSerialIter(l, h, u, view);
  }

  lemma IsValidStep(dom: Domain, l: Local, h: nat, src: Key -> Source)
    requires LocalOk(dom, l) && SourceOk(dom, src) && Usable(l, h) && StepIsValid(l, h, src).Stepped?
    ensures StepOk(dom, IsValid(h), l, StepIsValid(l, h, src).local)
  {
    var s := Skipped(l, h, src);
    if SkipFound(s) { FoundStep(dom, l, h, src, s); } else { EndStep(dom, l, h, src, s); }
  }

  lemma FoundStep(dom: Domain, l: Local, h: nat, src: Key -> Source, s: Skip)
    requires LocalOk(dom, l) && SourceOk(dom, src) && Usable(l, h) && s == Skipped(l, h, src) && SkipFound(s)
    ensures StepOk(dom, IsValid(h), l, Reply(UpdateIter(l, h, Shown(l.iters[h], s), s.rs), Is(true)))
  {
    PlacedExtends(dom, l, h, src, s);
    ShowSerial(l, h, HeadKey(l.iters[h].tracker.ascending, s.parent, s.cache), s.rs);
    ShowStep(dom, IsValid(h), l, h, src, s, s.rs, Is(true));
  }

  /** The serial iterator stands at `k`, over a view the reads agree with. */
  ghost predicate SerialShows(l: Local, h: nat, k: Key, rs: ReadSet, view: KVMap) {
    && ReadsAgree(rs, view) && h < |l.iters| && EntryAt(SerialOf(l, view), h)
    && SerialOf(l, view).iters[h] == SerialIterOf(l.iters[h], view)
    && SerialOf(l, view).iters[h].keys[SerialOf(l, view).iters[h].pos] == k
  }

  /** The three calls that show the current entry without moving. */
  lemma ShowStep(dom: Domain, op: Op, l: Local, h: nat, src: Key -> Source, s: Skip, rs: ReadSet, r: Resp)
    requires LocalOk(dom, l) && SourceOk(dom, src) && Usable(l, h) && s == Skipped(l, h, src) && SkipFound(s)
    requires ReadsetOk(dom, rs) && Extends(s.rs, rs)
    requires forall view: KVMap :: SerialShows(l, h, HeadKey(l.iters[h].tracker.ascending, s.parent, s.cache), rs,
                                               view) ==>
               SerialStep(op, SerialOf(l, view)) == Some(Answer(SerialOf(l, view), r))
    ensures StepOk(dom, op, l, Reply(UpdateIter(l, h, Shown(l.iters[h], s), rs), r))
  {
    var u := Shown(l.iters[h], s);
    ShownOk(dom, l, h, src, s);
    ExtendsTransitive(l.readset, s.rs, rs);
    LiveExtends(dom, u, l.writeset, s.rs, rs);
    UpdateIterOk(dom, l, h, u, rs, r);
    var l' := Reply(UpdateIter(l, h, u, rs), r);
    assert Tracked(l, h, u);
    forall view: KVMap | Agrees(l', view) ensures SerialStep(op, SerialOf(l, view)) == Some(SerialOf(l', view)) {
      ShownSerial(l, h, u, rs, r, view);
    }
  }

  lemma EndStep(dom: Domain, l: Local, h: nat, src: Key -> Source, s: Skip)
    requires LocalOk(dom, l) && SourceOk(dom, src) && Usable(l, h) && s == Skipped(l, h, src) && s.SkipAt?
    requires !SkipFound(s)
    ensures StepOk(dom, IsValid(h), l, Reply(UpdateIter(l, h, End(Placed(l.iters[h], s)), s.rs), Is(false)))
  {
    var it := l.iters[h];
    var u := End(Placed(it, s));
    assert IterOk(dom, it, l.writeset, l.readset);
    PlacedOk(dom, it, l.writeset, l.readset, src, s);
    UpdateIterOk(dom, l, h, u, s.rs, Is(false));
    assert u.nexts == it.nexts == |u.visited| && IterGrows(it, u) && u.open;
    forall view: KVMap | Agrees(Reply(UpdateIter(l, h, u, s.rs), Is(false)), view)
      ensures SerialStep(IsValid(h), SerialOf(l, view))
           == Some(SerialOf(Reply(UpdateIter(l, h, u, s.rs), Is(false)), view))
    {
      AgreesAt(l, h, u, s.rs, Is(false), view);
      EndSerial(l, h, u, s.rs, view);
    }
  }

  lemma EndSerial(l: Local, h: nat, u: Iter, rs: ReadSet, view: KVMap)
    requires Usable(l, h) && IterGrows(l.iters[h], u) && u.open && u.ended && u.nexts == l.iters[h].nexts == |u.visited|
    requires IterAgrees(u, view)
    ensures SerialStep(IsValid(h), SerialOf(l, view)) == Some(SerialOf(Reply(UpdateIter(l, h, u, rs), Is(false)), view))
  {
    assert FreshScan(view, u.tracker) == FreshScan(view, l.iters[h].tracker);
    UpdateIterSerial(l, h, u, rs, Is(false), view);
    SameSerialIter(l, h, u, view);
  }

  lemma GetKeyStep(dom: Domain, l: Local, h: nat, src: Key -> Source)
    requires LocalOk(dom, l) && SourceOk(dom, src) && Usable(l, h) && StepGetKey(l, h, src).Stepped?
    ensures StepOk(dom, GetKey(h), l, StepGetKey(l, h, src).local)
  {
    var s := Skipped(l, h, src);
    PlacedExtends(dom, l, h, src, s);
    ShowSerial(l, h, HeadKey(l.iters[h].tracker.ascending, s.parent, s.cache), s.rs);
    ShowStep(dom, GetKey(h), l, h, src, s, s.rs, At(HeadKey(l.iters[h].tracker.ascending, s.parent, s.cache)));
  }

  lemma PlacedExtends(dom: Domain, l: Local, h: nat, src: Key -> Source, s: Skip)
    requires LocalOk(dom, l) && SourceOk(dom, src) && Usable(l, h) && s == Skipped(l, h, src) && s.SkipAt?
    ensures ReadsetOk(dom, s.rs) && Extends(l.readset, s.rs)
  {
    assert IterOk(dom, l.iters[h], l.writeset, l.readset);
    PlacedOk(dom, l.iters[h], l.writeset, l.readset, src, s);
  }

  lemma NextStep(dom: Domain, l: Local, h: nat, src: Key -> Source)
    requires LocalOk(dom, l) && SourceOk(dom, src) && Usable(l, h) && StepNext(l, h, src).Stepped?
    ensures StepOk(dom, Next(h), l, StepNext(l, h, src).local)
  {
    var s := Skipped(l, h, src);
    var u := Shown(l.iters[h], s);
    ShownOk(dom, l, h, src, s);
    AdvanceOk(dom, u, l.writeset, s.rs);
    UpdateIterOk(dom, l, h, Advance(u), s.rs, Done);
    assert Tracked(l, h, u);
    var l' := Reply(UpdateIter(l, h, Advance(u), s.rs), Done);
    forall view: KVMap | Agrees(l', view) ensures SerialStep(Next(h), SerialOf(l, view)) == Some(SerialOf(l', view)) {
      AgreesAt(l, h, Advance(u), s.rs, Done, view);
      NextSerial(l, h, u, s.rs, view);
    }
  }

  lemma NextSerial(l: Local, h: nat, u: Iter, rs: ReadSet, view: KVMap)
    requires Tracked(l, h, u) && IterAgrees(u, view)
    ensures SerialStep(Next(h), SerialOf(l, view))
         == Some(SerialOf(Reply(UpdateIter(l, h, Advance(u), rs), Done), view))
  {
    hide IterAgrees, FreshScan, Advance;
    ShownEntry(l, h, u, view);
    UpdateIterSerial(l, h, Advance(u), rs, Done, view);
    SerialAnswers(SerialOf(l, view), h, u.visited[u.nexts]);
    AdvanceSerial(l.iters[h], u, view);
  }

  lemma AdvanceSerial(it: Iter, u: Iter, view: KVMap)
    requires IterGrows(it, u) && u.nexts == it.nexts && u.open == it.open
    ensures SerialIterOf(Advance(u), view) == SerialIterOf(it, view).(pos := it.nexts + 1)
  {
  }

  /** The value a settled iterator gives is known from now on, under the writes pending at its opening. */
  lemma EntryValueOk(dom: Domain, u: Iter, s: Skip, ws: WriteSet, src: Key -> Source, rs: ReadSet, v: Option<Bytes>)
    requires s.SkipAt? && ReadsetOk(dom, s.rs) && SourceOk(dom, src) && LiveOk(dom, u, ws, s.rs)
    requires u.parent == s.parent && u.cache == s.cache && Settled(u.tracker.ascending, s.parent, s.cache, ws, s.rs)
    requires EntryValue(s, u.tracker.ascending, ws, src) == Value(rs, v)
    ensures ReadsetOk(dom, rs) && Extends(s.rs, rs)
    ensures forall view: KVMap :: ReadsAgree(rs, view) ==>
              v == Lookup(Overlay(view, u.tracker.writeset), HeadKey(u.tracker.ascending, s.parent, s.cache))
  {
    var t := u.tracker;
    var k := HeadKey(t.ascending, s.parent, s.cache);
    if FromCache(t.ascending, s.parent, s.cache) {
      ReadOk(dom, ws, s.rs, src, k);
      assert InRange(t.range, s.cache[0]);
      forall view: KVMap | ReadsAgree(rs, view) ensures v == Lookup(Overlay(view, t.writeset), k) {
        KnownIsOverlay(ws, rs, view, k, v);
      }
    } else {
      ParentEntryUnshadowed(dom, u, s, ws);
      UpdateReadSetOk(dom, s.rs, k, v);
      forall view: KVMap | ReadsAgree(rs, view) ensures v == Lookup(Overlay(view, t.writeset), k) {
        assert rs[k] == [Lookup(view, k)] && v in rs[k];
      }
    }
  }

  lemma ParentEntryUnshadowed(dom: Domain, u: Iter, s: Skip, ws: WriteSet)
    requires s.SkipAt? && LiveOk(dom, u, ws, s.rs) && u.parent == s.parent && u.cache == s.cache
    requires (s.parent != [] || s.cache != []) && !FromCache(u.tracker.ascending, s.parent, s.cache)
    ensures s.parent[0].key !in u.tracker.writeset && dom(s.parent[0].key, Some(s.parent[0].value))
  {
    var t := u.tracker;
    var k := s.parent[0].key;
    assert EntryKeys(s.parent)[0] == k && InRange(t.range, k);
    BeforeNotSelf(t.ascending, k);
    if s.cache != [] { HeadsOrdered(t.ascending, k, s.cache); }
    assert k in KeysIn(t.range, t.writeset.Keys) ==> AllAfter(t.ascending, k, EntryKeys(s.parent));
  }

  lemma GetValueStep(dom: Domain, l: Local, h: nat, src: Key -> Source)
    requires LocalOk(dom, l) && SourceOk(dom, src) && Usable(l, h) && StepGetValue(l, h, src).Stepped?
    ensures StepOk(dom, GetValue(h), l, StepGetValue(l, h, src).local)
  {
    var s := Skipped(l, h, src);
    var u := Shown(l.iters[h], s);
    ShownOk(dom, l, h, src, s);
    var e := EntryValue(s, u.tracker.ascending, l.writeset, src);
    EntryValueOk(dom, u, s, l.writeset, src, e.rs, e.value);
    GetValueSerial(l, h, HeadKey(u.tracker.ascending, s.parent, s.cache), e.value, e.rs);
    ShowStep(dom, GetValue(h), l, h, src, s, e.rs, Got(e.value));
  }

  lemma ShowSerial(l: Local, h: nat, k: Key, rs: ReadSet)
    requires h < |l.iters|
    ensures forall view: KVMap :: SerialShows(l, h, k, rs, view) ==>
              SerialStep(GetKey(h), SerialOf(l, view)) == Some(Answer(SerialOf(l, view), At(k)))
    ensures forall view: KVMap :: SerialShows(l, h, k, rs, view) ==>
              SerialStep(IsValid(h), SerialOf(l, view)) == Some(Answer(SerialOf(l, view), Is(true)))
  {
    forall view: KVMap | SerialShows(l, h, k, rs, view)
      ensures SerialStep(GetKey(h), SerialOf(l, view)) == Some(Answer(SerialOf(l, view), At(k)))
      ensures SerialStep(IsValid(h), SerialOf(l, view)) == Some(Answer(SerialOf(l, view), Is(true)))
    {
      SerialAnswers(SerialOf(l, view), h, k);
    }
  }

  lemma SerialAnswers(st: Serial, h: nat, k: Key)
    requires EntryAt(st, h) && st.iters[h].keys[st.iters[h].pos] == k
    ensures SerialStep(GetKey(h), st) == Some(Answer(st, At(k)))
    ensures SerialStep(IsValid(h), st) == Some(Answer(st, Is(true)))
    ensures SerialStep(GetValue(h), st) == Some(Answer(st, Got(Lookup(st.iters[h].snapshot, k))))
    ensures SerialStep(Next(h), st)
         == Some(Answer(st.(iters := st.iters[h := st.iters[h].(pos := st.iters[h].pos + 1)]), Done))
  {
  }

  lemma GetValueSerial(l: Local, h: nat, k: Key, v: Option<Bytes>, rs: ReadSet)
    requires h < |l.iters|
    requires forall view: KVMap :: ReadsAgree(rs, view) ==> v == Lookup(Overlay(view, l.iters[h].tracker.writeset), k)
    ensures forall view: KVMap :: SerialShows(l, h, k, rs, view) ==>
              SerialStep(GetValue(h), SerialOf(l, view)) == Some(Answer(SerialOf(l, view), Got(v)))
  {
    forall view: KVMap | SerialShows(l, h, k, rs, view)
      ensures SerialStep(GetValue(h), SerialOf(l, view)) == Some(Answer(SerialOf(l, view), Got(v)))
    {
      SerialAnswers(SerialOf(l, view), h, k);
    }
  }

  /** Every call, whatever the shared store answers during it. */
  lemma EveryStepOk(dom: Domain, op: Op, l: Local, parent: KVMap, items: set<Key>, src: Key -> Source)
    requires LocalOk(dom, l) && ParentOk(dom, parent, items) && SourceOk(dom, src)
    requires LocalStep(op, l, parent, items, src).Stepped?
    ensures StepOk(dom, op, l, LocalStep(op, l, parent, items, src).local)
  {
    match op
    case Commit =>
    case Get(k) => GetStep(dom, l, src, k);
    case Put(k, v) => PutStep(dom, l, k, v);
    case Open(r, asc) => OpenStep(dom, l, parent, items, r, asc);
    case IsValid(h) => IsValidStep(dom, l, h, src);
    case GetKey(h) => GetKeyStep(dom, l, h, src);
    case GetValue(h) => GetValueStep(dom, l, h, src);
    case Next(h) => NextStep(dom, l, h, src);
    case Close(h) => CloseStep(dom, l, h);
  }

  // ----- Whole executions -----

  /** `l` is where some execution of `tx` can be, judged by every store its record agrees with. */
  ghost predicate Follows(dom: Domain, tx: Tx, l: Local) {
    && LocalOk(dom, l)
    && forall view: KVMap :: Agrees(l, view) ==> SerialAfter(tx, view, |l.hist|) == Some(SerialOf(l, view))
  }

  lemma StartFollows(dom: Domain, tx: Tx)
    requires Apart(dom)
    ensures Follows(dom, tx, Start)
  {
    forall view: KVMap ensures SerialOf(Start, view) == Serial(view, [], []) {
      OverlayUnique(view, map[], view);
    }
  }

  lemma StepFollows(dom: Domain, tx: Tx, l: Local, parent: KVMap, items: set<Key>, src: Key -> Source)
    requires Follows(dom, tx, l) && ParentOk(dom, parent, items) && SourceOk(dom, src)
    requires LocalStep(tx(l.hist), l, parent, items, src).Stepped?
    ensures Follows(dom, tx, LocalStep(tx(l.hist), l, parent, items, src).local)
  {
    var op := tx(l.hist);
    var l' := LocalStep(op, l, parent, items, src).local;
    EveryStepOk(dom, op, l, parent, items, src);
    assert |l'.hist| == |l.hist| + 1;
    forall view: KVMap | Agrees(l', view) ensures SerialAfter(tx, view, |l'.hist|) == Some(SerialOf(l', view)) {
      AgreesEarlier(dom, l, l', view);
      assert SerialStep(op, SerialOf(l, view)) == Some(SerialOf(l', view));
    }
  }

  /** A finished execution whose record agrees with `view` has the effect of running alone on `view`. */
  lemma FinishedIsSerial(dom: Domain, tx: Tx, l: Local, view: KVMap)
    requires Follows(dom, tx, l) && Agrees(l, view) && tx(l.hist).Commit?
    ensures RunAlone(tx, view) == Some(Overlay(view, l.writeset))
  {
    RunAloneIs(tx, view, |l.hist|);
  }
}

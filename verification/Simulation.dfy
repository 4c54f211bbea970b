/** A speculative execution whose recorded reads and iterations agree with a store `view` has behaved,
    call by call, exactly as the transaction running alone on `view` does. */
module Simulation {
  import opened Bytes
  import opened MergeIterator
  import opened MultiVersion
  import opened Execution

  // ----- Invariant of a speculative execution -----

  /** The values each key may have. */
  type Domain = (Key, Option<Bytes>) -> bool

  /** `bytes.Equal` tells the values of a key apart: not both nil and empty are among them. */
  ghost predicate Apart(dom: Domain) {
    forall k: Key, v, w :: dom(k, v) && dom(k, w) && BytesEqual(v, w) ==> v == w
  }

  ghost predicate ReadsetOk(dom: Domain, rs: ReadSet) {
    Apart(dom) && forall k :: k in rs ==> |rs[k]| > 0 && forall j :: 0 <= j < |rs[k]| ==> dom(k, rs[k][j])
  }

  ghost predicate Extends(rs: ReadSet, rs': ReadSet) {
    forall k :: k in rs ==> k in rs' && rs[k] <= rs'[k]
  }

  /** What the execution answers for `k` from now on, whatever the shared store does. */
  predicate KnownAs(ws: WriteSet, rs: ReadSet, k: Key, v: Option<Bytes>) {
    if k in ws then ws[k] == v else k in rs && |rs[k]| > 0 && rs[k][0] == v
  }

  /** The merge head is an entry that further skipping leaves alone. */
  ghost predicate Settled(asc: bool, parent: seq<Entry>, cache: seq<Key>, ws: WriteSet, rs: ReadSet) {
    && (parent != [] || cache != [])
    && (FromCache(asc, parent, cache) ==> exists v: Bytes :: KnownAs(ws, rs, cache[0], Some(v)))
  }

  /** Every own write in range is still ahead on the cache side, or precedes the rest of the parent. What is ahead on
      the parent side is shadowed by the cache or a value its key may have. */
  ghost predicate Shadowed(dom: Domain, asc: bool, own: set<Key>, parent: seq<Entry>, cache: seq<Key>) {
    && (forall k :: k in own ==> k in cache || AllAfter(asc, k, EntryKeys(parent)))
    && forall i :: 0 <= i < |parent| ==> parent[i].key in cache || dom(parent[i].key, Some(parent[i].value))
  }

  ghost predicate SidesOk(asc: bool, r: Range, parent: seq<Entry>, cache: seq<Key>) {
    && Ordered(asc, EntryKeys(parent)) && Ordered(asc, cache)
    && (forall i :: 0 <= i < |parent| ==> InRange(r, parent[i].key))
    && (forall i :: 0 <= i < |cache| ==> InRange(r, cache[i]))
  }

  /** All of `visited` lies before whatever is left on both sides. */
  ghost predicate Passed(asc: bool, visited: seq<Key>, parent: seq<Entry>, cache: seq<Key>) {
    forall i :: 0 <= i < |visited| ==> AllAfter(asc, visited[i], EntryKeys(parent)) && AllAfter(asc, visited[i], cache)
  }

  /** The tracker holds exactly the visited keys, in order, and stops at the last of them. */
  ghost predicate TrackerOk(it: Iter) {
    && it.tracker.iteratedKeys == Elements(it.visited)
    && Ordered(it.tracker.ascending, it.visited)
    && it.tracker.earlyStop == (if it.ended || it.visited == [] then None else Some(it.visited[|it.visited| - 1]))
  }

  predicate SameOn(r: Range, ws: WriteSet, tws: WriteSet) {
    && (forall k :: k in ws && InRange(r, k) ==> k in tws && ws[k] == tws[k])
    && (forall k :: k in tws && InRange(r, k) ==> k in ws)
  }

  ghost predicate LiveOk(dom: Domain, it: Iter, ws: WriteSet, rs: ReadSet) {
    var t := it.tracker;
    && SidesOk(t.ascending, t.range, it.parent, it.cache)
    && Shadowed(dom, t.ascending, KeysIn(t.range, t.writeset.Keys), it.parent, it.cache)
    && SameOn(t.range, ws, t.writeset)
    && it.nexts <= |it.visited| <= it.nexts + 1
    && Passed(t.ascending, it.visited[..it.nexts], it.parent, it.cache)
    && (|it.visited| == it.nexts + 1 ==>
          Settled(t.ascending, it.parent, it.cache, ws, rs)
          && HeadKey(t.ascending, it.parent, it.cache) == it.visited[it.nexts])
    && (it.ended ==> it.parent == [] && it.cache == [] && |it.visited| == it.nexts)
  }

  ghost predicate IterOk(dom: Domain, it: Iter, ws: WriteSet, rs: ReadSet) {
    TrackerOk(it) && (it.open ==> LiveOk(dom, it, ws, rs))
  }

  ghost predicate LocalOk(dom: Domain, l: Local) {
    && ReadsetOk(dom, l.readset)
    && (forall h :: 0 <= h < |l.iters| ==> IterOk(dom, l.iters[h], l.writeset, l.readset))
  }

  // ----- Agreement with a store -----

  ghost predicate ReadsAgree(rs: ReadSet, view: KVMap) {
    forall k :: k in rs ==> rs[k] == [Lookup(view, k)]
  }

  ghost predicate IterAgrees(it: Iter, view: KVMap) {
    it.visited <= FreshScan(view, it.tracker) && (it.ended ==> it.visited == FreshScan(view, it.tracker))
  }

  /** Everything recorded is what `view` would have answered. */
  ghost predicate Agrees(l: Local, view: KVMap) {
    ReadsAgree(l.readset, view) && forall h :: 0 <= h < |l.iters| ==> IterAgrees(l.iters[h], view)
  }

  ghost function SerialIterOf(it: Iter, view: KVMap): SerialIter {
    SerialIter(it.tracker.range, it.tracker.ascending, Overlay(view, it.tracker.writeset),
               FreshScan(view, it.tracker), it.nexts, it.open)
  }

  /** The serial state a speculative execution stands for, over `view`. */
  ghost function SerialOf(l: Local, view: KVMap): Serial {
    var iters := seq(|l.iters|, h requires 0 <= h < |l.iters| => SerialIterOf(l.iters[h], view));
    Serial(Overlay(view, l.writeset), iters, l.hist)
  }

  // ----- Reading -----

  lemma UpdateReadSetOk(dom: Domain, rs: ReadSet, k: Key, v: Option<Bytes>)
    requires ReadsetOk(dom, rs) && dom(k, v)
    ensures ReadsetOk(dom, UpdateReadSet(rs, k, v)) && Extends(rs, UpdateReadSet(rs, k, v))
    ensures k in UpdateReadSet(rs, k, v) && v in UpdateReadSet(rs, k, v)[k]
  {
    var values := if k in rs then rs[k] else [];
    if HasEqual(values, v) {
      var j :| 0 <= j < |values| && BytesEqual(v, values[j]);
      assert dom(k, values[j]) && values[j] == v;
    }
  }

  /** No two values are equal as bytes: nil and empty are not both there. */
  predicate Unequal(values: seq<Option<Bytes>>) {
    forall i, j :: 0 <= i < j < |values| ==> Contents(values[i]) != Contents(values[j])
  }

  /** Recording appends the value at most, has one equal to it as bytes afterwards and never two equal ones; the other
      keys keep theirs. */
  lemma UpdateReadSetExact(rs: ReadSet, k: Key, v: Option<Bytes>)
    ensures var rs', was := UpdateReadSet(rs, k, v), if k in rs then rs[k] else [];
            && rs'.Keys == rs.Keys + {k} && (forall x :: x in rs && x != k ==> rs'[x] == rs[x])
            && (rs'[k] == was || rs'[k] == was + [v])
            && (exists j :: 0 <= j < |rs'[k]| && Contents(rs'[k][j]) == Contents(v))
            && (Unequal(was) ==> Unequal(rs'[k]))
  {
    var values := if k in rs then rs[k] else [];
    if HasEqual(values, v) {
      var j :| 0 <= j < |values| && BytesEqual(v, values[j]);
    } else {
      assert (values + [v])[|values|] == v;
    }
  }

  /** The shared source answers with values the keys may have. */
  ghost predicate SourceOk(dom: Domain, src: Key -> Source) {
    forall k: Key :: src(k).Current? ==> dom(k, src(k).value)
  }

  lemma ReadOk(dom: Domain, ws: WriteSet, rs: ReadSet, src: Key -> Source, k: Key)
    requires ReadsetOk(dom, rs) && SourceOk(dom, src) && Read(ws, rs, src, k).Value?
    ensures var r := Read(ws, rs, src, k);
            ReadsetOk(dom, r.rs) && Extends(rs, r.rs) && KnownAs(ws, r.rs, k, r.value)
  {
    if k !in ws && k !in rs { UpdateReadSetOk(dom, rs, k, src(k).value); }
  }

  lemma ReadKnown(ws: WriteSet, rs: ReadSet, src: Key -> Source, k: Key, v: Option<Bytes>)
    requires KnownAs(ws, rs, k, v)
    ensures Read(ws, rs, src, k) == Value(rs, v)
  {
  }

  lemma KnownStays(ws: WriteSet, rs: ReadSet, rs': ReadSet, k: Key, v: Option<Bytes>)
    requires KnownAs(ws, rs, k, v) && Extends(rs, rs')
    ensures KnownAs(ws, rs', k, v)
  {
  }

  lemma ExtendsTransitive(a: ReadSet, b: ReadSet, c: ReadSet)
    requires Extends(a, b) && Extends(b, c)
    ensures Extends(a, c)
  {
  }

  /** A known answer is the answer of the overlay, once the recorded reads agree with the view. */
  lemma KnownIsOverlay(ws: WriteSet, rs: ReadSet, view: KVMap, k: Key, v: Option<Bytes>)
    requires KnownAs(ws, rs, k, v) && ReadsAgree(rs, view)
    ensures v == Lookup(Overlay(view, ws), k)
  {
  }

  // ----- Skipping -----

  lemma {:induction false} SkipDeletesOk(dom: Domain, asc: bool, cache: seq<Key>, until: Option<Key>, ws: WriteSet,
                                         rs: ReadSet, src: Key -> Source)
    requires ReadsetOk(dom, rs) && SourceOk(dom, src) && SkipDeletes(asc, cache, until, ws, rs, src).DeletesAt?
    ensures var r := SkipDeletes(asc, cache, until, ws, rs, src);
            && ReadsetOk(dom, r.rs) && Extends(rs, r.rs) && Suffix(r.cache, cache)
            && (forall k :: k in cache && k !in r.cache ==> until.None? || Before(asc, k, until.value))
            && (until.None? && r.cache != [] ==> exists v: Bytes :: KnownAs(ws, r.rs, r.cache[0], Some(v)))
    decreases |cache|
  {
    if cache != [] {
      var r := Read(ws, rs, src, cache[0]);
      ReadOk(dom, ws, rs, src, cache[0]);
      if r.value.None? && (until.None? || Before(asc, cache[0], until.value)) {
        SkipDeletesOk(dom, asc, cache[1..], until, ws, r.rs, src);
        var q := SkipDeletes(asc, cache[1..], until, ws, r.rs, src);
        ExtendsTransitive(rs, r.rs, q.rs);
        assert Suffix(cache[1..], cache);
        SuffixTransitive(q.cache, cache[1..], cache);
        assert cache == [cache[0]] + cache[1..];
      } else if until.None? {
        assert KnownAs(ws, r.rs, cache[0], Some(r.value.value));
      }
    }
  }

  /** Where a skip may end up, coming from (parent, cache, rs). */
  ghost predicate SkipReaches(dom: Domain, asc: bool, own: set<Key>, parent: seq<Entry>, cache: seq<Key>, ws: WriteSet,
                              rs: ReadSet, s: Skip) {
    && s.SkipAt?
    && ReadsetOk(dom, s.rs) && Extends(rs, s.rs)
    && Suffix(s.parent, parent) && Suffix(s.cache, cache)
    && Shadowed(dom, asc, own, s.parent, s.cache)
    && (if s.ok then Settled(asc, s.parent, s.cache, ws, s.rs) else s.parent == [] && s.cache == [])
  }

  lemma SkipReachesFurther(dom: Domain, asc: bool, own: set<Key>, p: seq<Entry>, c: seq<Key>, ws: WriteSet, rs: ReadSet,
                           p': seq<Entry>, c': seq<Key>, rs': ReadSet, s: Skip)
    requires Suffix(p', p) && Suffix(c', c) && Extends(rs, rs')
    requires SkipReaches(dom, asc, own, p', c', ws, rs', s)
    ensures SkipReaches(dom, asc, own, p, c, ws, rs, s)
  {
    SuffixTransitive(s.parent, p', p);
    SuffixTransitive(s.cache, c', c);
    ExtendsTransitive(rs, rs', s.rs);
  }

  /** Dropping cache keys that precede the parent's head keeps own writes accounted for. */
  lemma ShadowedDrop(dom: Domain, asc: bool, own: set<Key>, parent: seq<Entry>, cache: seq<Key>, c: seq<Key>)
    requires Ordered(asc, EntryKeys(parent)) && Shadowed(dom, asc, own, parent, cache)
    requires forall k :: k in cache && k !in c ==> parent == [] || Before(asc, k, parent[0].key)
    ensures Shadowed(dom, asc, own, parent, c)
  {
    forall k | k in own && k !in c ensures AllAfter(asc, k, EntryKeys(parent)) {
      if k in cache && parent != [] { HeadsOrdered(asc, k, EntryKeys(parent)); }
    }
    forall i | 0 <= i < |parent| && parent[i].key !in c ensures dom(parent[i].key, Some(parent[i].value)) {
      if parent[i].key in cache { NotBeforeHead(asc, parent, i); }
    }
  }

  lemma NotBeforeHead(asc: bool, parent: seq<Entry>, i: nat)
    requires Ordered(asc, EntryKeys(parent)) && i < |parent|
    ensures !Before(asc, parent[i].key, parent[0].key)
  {
    BeforeNotSelf(asc, parent[0].key);
    if i > 0 {
      assert Before(asc, EntryKeys(parent)[0], EntryKeys(parent)[i]);
      BeforeIsStrict(asc, parent[0].key, parent[i].key);
    }
  }

  lemma ShadowedDropBoth(dom: Domain, asc: bool, own: set<Key>, parent: seq<Entry>, cache: seq<Key>)
    requires parent != [] && cache != [] && parent[0].key == cache[0]
    requires Ordered(asc, EntryKeys(parent)) && Shadowed(dom, asc, own, parent, cache)
    ensures Shadowed(dom, asc, own, parent[1..], cache[1..])
  {
    ConsEntries(parent);
    TailOrdered(asc, EntryKeys(parent), EntryKeys(parent[1..]));
    assert cache == [cache[0]] + cache[1..];
    forall i | 1 <= i < |parent| ensures parent[i].key != cache[0] {
      assert Before(asc, EntryKeys(parent)[0], EntryKeys(parent)[i]);
      BeforeNotSelf(asc, cache[0]);
    }
  }

  lemma {:induction false} SkipOk(dom: Domain, asc: bool, r: Range, own: set<Key>, parent: seq<Entry>, cache: seq<Key>,
                                  ws: WriteSet, rs: ReadSet, src: Key -> Source)
    requires ReadsetOk(dom, rs) && SourceOk(dom, src) && SidesOk(asc, r, parent, cache)
    requires Shadowed(dom, asc, own, parent, cache)
    requires SkipUntilExists(asc, parent, cache, ws, rs, src).SkipAt?
    ensures SkipReaches(dom, asc, own, parent, cache, ws, rs, SkipUntilExists(asc, parent, cache, ws, rs, src))
    decreases |parent| + |cache|
  {
    var s := SkipUntilExists(asc, parent, cache, ws, rs, src);
    if parent == [] {
      SkipDeletesOk(dom, asc, cache, None, ws, rs, src);
      ShadowedDrop(dom, asc, own, parent, cache, s.cache);
    } else if cache == [] || Before(asc, parent[0].key, cache[0]) {
    } else {
      var q := Read(ws, rs, src, cache[0]);
      ReadOk(dom, ws, rs, src, cache[0]);
      if q.value.Some? {
        assert KnownAs(ws, q.rs, cache[0], Some(q.value.value));
      } else if parent[0].key == cache[0] {
        SkipOkTie(dom, asc, r, own, parent, cache, ws, rs, src);
      } else {
        SkipOkDeletes(dom, asc, r, own, parent, cache, ws, rs, src);
      }
    }
  }

  lemma {:induction false} SkipOkTie(dom: Domain, asc: bool, r: Range, own: set<Key>, parent: seq<Entry>,
                                     cache: seq<Key>,
                                     ws: WriteSet, rs: ReadSet, src: Key -> Source)
    requires ReadsetOk(dom, rs) && SourceOk(dom, src) && SidesOk(asc, r, parent, cache)
    requires Shadowed(dom, asc, own, parent, cache)
    requires SkipUntilExists(asc, parent, cache, ws, rs, src).SkipAt?
    requires parent != [] && cache != [] && parent[0].key == cache[0]
    requires Read(ws, rs, src, cache[0]).Value? && Read(ws, rs, src, cache[0]).value.None?
    ensures SkipReaches(dom, asc, own, parent, cache, ws, rs, SkipUntilExists(asc, parent, cache, ws, rs, src))
    decreases |parent| + |cache|, 0
  {
    BeforeNotSelf(asc, cache[0]);
    var q := Read(ws, rs, src, cache[0]);
    ReadOk(dom, ws, rs, src, cache[0]);
    SidesTail(asc, r, parent, cache);
    ShadowedDropBoth(dom, asc, own, parent, cache);
    SkipOk(dom, asc, r, own, parent[1..], cache[1..], ws, q.rs, src);
    SkipReachesFurther(dom, asc, own, parent, cache, ws, rs, parent[1..], cache[1..], q.rs,
                       SkipUntilExists(asc, parent, cache, ws, rs, src));
  }

  lemma {:induction false} SkipOkDeletes(dom: Domain, asc: bool, r: Range, own: set<Key>, parent: seq<Entry>,
                                         cache: seq<Key>,
                                         ws: WriteSet, rs: ReadSet, src: Key -> Source)
    requires ReadsetOk(dom, rs) && SourceOk(dom, src) && SidesOk(asc, r, parent, cache)
    requires Shadowed(dom, asc, own, parent, cache)
    requires SkipUntilExists(asc, parent, cache, ws, rs, src).SkipAt?
    requires parent != [] && cache != [] && !Before(asc, parent[0].key, cache[0]) && parent[0].key != cache[0]
    requires Read(ws, rs, src, cache[0]).Value? && Read(ws, rs, src, cache[0]).value.None?
    ensures SkipReaches(dom, asc, own, parent, cache, ws, rs, SkipUntilExists(asc, parent, cache, ws, rs, src))
    decreases |parent| + |cache|, 0
  {
    hide ReadsetOk, SourceOk, Ordered, Shadowed, Extends, SkipReaches, SkipDeletes, SkipUntilExists, Read, Before;
    BeforeTotal(asc, parent[0].key, cache[0]);
    var q := Read(ws, rs, src, cache[0]);
    ReadOk(dom, ws, rs, src, cache[0]);
    var d := SkipDeletes(asc, cache[1..], Some(parent[0].key), ws, q.rs, src);
    SkipPastDeletes(asc, parent, cache, ws, rs, src, q, d);
    SkipDeletesOk(dom, asc, cache[1..], Some(parent[0].key), ws, q.rs, src);
    ExtendsTransitive(rs, q.rs, d.rs);
    assert Suffix(cache[1..], cache);
    SuffixTransitive(d.cache, cache[1..], cache);
    assert cache == [cache[0]] + cache[1..];
    ShadowedDrop(dom, asc, own, parent, cache, d.cache);
    SidesSuffix(asc, r, parent, cache, parent, d.cache);
    SkipOk(dom, asc, r, own, parent, d.cache, ws, d.rs, src);
    SkipReachesFurther(dom, asc, own, parent, cache, ws, rs, parent, d.cache, d.rs,
                       SkipUntilExists(asc, parent, cache, ws, rs, src));
  }

  lemma SkipPastDeletes(asc: bool, parent: seq<Entry>, cache: seq<Key>, ws: WriteSet, rs: ReadSet, src: Key -> Source,
                        q: ReadResult, d: Deletes)
    requires SkipUntilExists(asc, parent, cache, ws, rs, src).SkipAt?
    requires parent != [] && cache != [] && !Before(asc, parent[0].key, cache[0]) && parent[0].key != cache[0]
    requires q == Read(ws, rs, src, cache[0]) && q.Value? && q.value.None?
    requires d == SkipDeletes(asc, cache[1..], Some(parent[0].key), ws, q.rs, src)
    ensures d.DeletesAt?
    ensures SkipUntilExists(asc, parent, cache, ws, rs, src) == SkipUntilExists(asc, parent, d.cache, ws, d.rs, src)
  {
  }

  lemma SidesSuffix(asc: bool, r: Range, parent: seq<Entry>, cache: seq<Key>, p: seq<Entry>, c: seq<Key>)
    requires SidesOk(asc, r, parent, cache) && Suffix(p, parent) && Suffix(c, cache)
    ensures SidesOk(asc, r, p, c)
    ensures forall k: Key :: AllAfter(asc, k, EntryKeys(parent)) ==> AllAfter(asc, k, EntryKeys(p))
    ensures forall k: Key :: AllAfter(asc, k, cache) ==> AllAfter(asc, k, c)
  {
    hide Before, InRange;
    assert Suffix(EntryKeys(p), EntryKeys(parent));
  }

  lemma SidesTail(asc: bool, r: Range, parent: seq<Entry>, cache: seq<Key>)
    requires SidesOk(asc, r, parent, cache) && parent != [] && cache != []
    ensures SidesOk(asc, r, parent[1..], cache[1..])
    ensures Suffix(parent[1..], parent) && Suffix(cache[1..], cache)
  {
    SidesSuffix(asc, r, parent, cache, parent[1..], cache[1..]);
  }

  /** A settled position is a fixed point of skipping, whatever the shared store answers. */
  lemma SettledStays(asc: bool, parent: seq<Entry>, cache: seq<Key>, ws: WriteSet, rs: ReadSet, src: Key -> Source)
    requires Settled(asc, parent, cache, ws, rs)
    ensures SkipUntilExists(asc, parent, cache, ws, rs, src) == SkipAt(parent, cache, rs, true)
  {
    if FromCache(asc, parent, cache) {
      var v: Bytes :| KnownAs(ws, rs, cache[0], Some(v));
      ReadKnown(ws, rs, src, cache[0], Some(v));
    }
  }

  // ----- What a call does to one iterator -----

  lemma SettledExtends(asc: bool, parent: seq<Entry>, cache: seq<Key>, ws: WriteSet, rs: ReadSet, rs': ReadSet)
    requires Settled(asc, parent, cache, ws, rs) && Extends(rs, rs')
    ensures Settled(asc, parent, cache, ws, rs')
  {
    if FromCache(asc, parent, cache) {
      var v: Bytes :| KnownAs(ws, rs, cache[0], Some(v));
      KnownStays(ws, rs, rs', cache[0], Some(v));
    }
  }

  lemma LiveExtends(dom: Domain, it: Iter, ws: WriteSet, rs: ReadSet, rs': ReadSet)
    requires LiveOk(dom, it, ws, rs) && Extends(rs, rs')
    ensures LiveOk(dom, it, ws, rs')
  {
    if |it.visited| == it.nexts + 1 { SettledExtends(it.tracker.ascending, it.parent, it.cache, ws, rs, rs'); }
  }

  lemma PassedSuffix(asc: bool, r: Range, visited: seq<Key>, parent: seq<Entry>, cache: seq<Key>, p: seq<Entry>,
                     c: seq<Key>)
    requires SidesOk(asc, r, parent, cache) && Suffix(p, parent) && Suffix(c, cache)
    requires Passed(asc, visited, parent, cache)
    ensures Passed(asc, visited, p, c)
  {
    SidesSuffix(asc, r, parent, cache, p, c);
  }

  function SkipOf(it: Iter, ws: WriteSet, rs: ReadSet, src: Key -> Source): Skip {
    SkipUntilExists(it.tracker.ascending, it.parent, it.cache, ws, rs, src)
  }

  /** A skip keeps the iterator's invariant; it moves nothing once the current entry has been shown. */
  lemma PlacedOk(dom: Domain, it: Iter, ws: WriteSet, rs: ReadSet, src: Key -> Source, s: Skip)
    requires LiveOk(dom, it, ws, rs) && ReadsetOk(dom, rs) && SourceOk(dom, src)
    requires s == SkipOf(it, ws, rs, src) && s.SkipAt?
    ensures ReadsetOk(dom, s.rs) && Extends(rs, s.rs) && LiveOk(dom, Placed(it, s), ws, s.rs)
    ensures if s.ok then Settled(it.tracker.ascending, s.parent, s.cache, ws, s.rs) && !it.ended
            else s.parent == [] && s.cache == [] && |it.visited| == it.nexts
  {
    var t := it.tracker;
    SkipOk(dom, t.ascending, t.range, KeysIn(t.range, t.writeset.Keys), it.parent, it.cache, ws, rs, src);
    if |it.visited| == it.nexts + 1 { SettledStays(t.ascending, it.parent, it.cache, ws, rs, src); }
    SidesSuffix(t.ascending, t.range, it.parent, it.cache, s.parent, s.cache);
    PassedSuffix(t.ascending, t.range, it.visited[..it.nexts], it.parent, it.cache, s.parent, s.cache);
  }

  lemma HeadIsNext(asc: bool, visited: seq<Key>, parent: seq<Entry>, cache: seq<Key>)
    requires (parent != [] || cache != []) && Passed(asc, visited, parent, cache)
    ensures forall i :: 0 <= i < |visited| ==> Before(asc, visited[i], HeadKey(asc, parent, cache))
  {
    forall i | 0 <= i < |visited| ensures Before(asc, visited[i], HeadKey(asc, parent, cache)) {
      assert AllAfter(asc, visited[i], EntryKeys(parent)) && AllAfter(asc, visited[i], cache);
      if !FromCache(asc, parent, cache) { assert EntryKeys(parent)[0] == parent[0].key; }
    }
  }

  /** Showing the current entry tracks it, once and in order. */
  lemma TouchOk(dom: Domain, it: Iter, ws: WriteSet, rs: ReadSet)
    requires TrackerOk(it) && LiveOk(dom, it, ws, rs) && !it.ended
    requires Settled(it.tracker.ascending, it.parent, it.cache, ws, rs)
    ensures var u := Touch(it, HeadKey(it.tracker.ascending, it.parent, it.cache));
            TrackerOk(u) && LiveOk(dom, u, ws, rs) && |u.visited| == it.nexts + 1 && it.visited <= u.visited
  {
    hide SidesOk, Shadowed, SameOn, Passed, HeadKey, Before;
    var asc := it.tracker.ascending;
    var k := HeadKey(asc, it.parent, it.cache);
    var u := Touch(it, k);
    if |it.visited| == it.nexts {
      assert it.visited[..it.nexts] == it.visited;
      HeadIsNext(asc, it.visited, it.parent, it.cache);
      assert Elements(it.visited + [k]) == Elements(it.visited) + {k};
    } else {
      assert k == it.visited[|it.visited| - 1] && k in Elements(it.visited);
      assert Elements(it.visited) + {k} == Elements(it.visited);
    }
    assert u.visited[..it.nexts] == it.visited[..it.nexts];
  }

  lemma HeadBeforeRest(asc: bool, r: Range, parent: seq<Entry>, cache: seq<Key>, p: seq<Entry>, c: seq<Key>)
    requires SidesOk(asc, r, parent, cache) && (parent != [] || cache != [])
    requires c == CacheAfter(asc, parent, cache)
    requires p == ParentAfter(asc, parent, cache)
    ensures AllAfter(asc, HeadKey(asc, parent, cache), EntryKeys(p)) && AllAfter(asc, HeadKey(asc, parent, cache), c)
  {
    if FromCache(asc, parent, cache) {
      TailOrdered(asc, cache, cache[1..]);
      if parent != [] {
        BeforeTotal(asc, parent[0].key, cache[0]);
        if parent[0].key == cache[0] {
          ConsEntries(parent);
          TailOrdered(asc, EntryKeys(parent), EntryKeys(parent[1..]));
        } else {
          HeadsOrdered(asc, cache[0], EntryKeys(parent));
        }
      }
    } else {
      ConsEntries(parent);
      TailOrdered(asc, EntryKeys(parent), EntryKeys(parent[1..]));
      if cache != [] { HeadsOrdered(asc, parent[0].key, cache); }
    }
  }

  lemma ShadowedAdvance(dom: Domain, asc: bool, r: Range, own: set<Key>, parent: seq<Entry>, cache: seq<Key>,
                        p: seq<Entry>, c: seq<Key>)
    requires SidesOk(asc, r, parent, cache) && (parent != [] || cache != []) && Shadowed(dom, asc, own, parent, cache)
    requires c == CacheAfter(asc, parent, cache)
    requires p == ParentAfter(asc, parent, cache)
    ensures Shadowed(dom, asc, own, p, c)
  {
    AfterIsSuffix(asc, parent, cache);
    hide SidesOk, Suffix, AllAfter, HeadKey, ParentAfter;
    HeadBeforeRest(asc, r, parent, cache, p, c);
    VouchedAdvance(dom, asc, parent, cache, p, c);
    SidesSuffix(asc, r, parent, cache, p, cache);
  }

  lemma AfterIsSuffix(asc: bool, parent: seq<Entry>, cache: seq<Key>)
    ensures Suffix(ParentAfter(asc, parent, cache), parent) && Suffix(CacheAfter(asc, parent, cache), cache)
    ensures Suffix(cache, cache)
    ensures forall k :: k in cache && k !in CacheAfter(asc, parent, cache) ==> k == HeadKey(asc, parent, cache)
  {
    if FromCache(asc, parent, cache) { assert cache == [cache[0]] + cache[1..]; }
  }

  lemma VouchedAdvance(dom: Domain, asc: bool, parent: seq<Entry>, cache: seq<Key>, p: seq<Entry>, c: seq<Key>)
    requires (parent != [] || cache != []) && Suffix(p, parent)
    requires AllAfter(asc, HeadKey(asc, parent, cache), EntryKeys(p))
    requires c == if FromCache(asc, parent, cache) then cache[1..] else cache
    requires forall i :: 0 <= i < |parent| ==> parent[i].key in cache || dom(parent[i].key, Some(parent[i].value))
    ensures forall i :: 0 <= i < |p| ==> p[i].key in c || dom(p[i].key, Some(p[i].value))
  {
    forall i | 0 <= i < |p| ensures p[i].key in c || dom(p[i].key, Some(p[i].value)) {
      assert p[i] == parent[|parent| - |p| + i] && EntryKeys(p)[i] == p[i].key;
      if FromCache(asc, parent, cache) {
        BeforeNotSelf(asc, cache[0]);
        assert cache == [cache[0]] + cache[1..];
      }
    }
  }

  /** Advancing passes the entry just shown. */
  lemma AdvanceOk(dom: Domain, it: Iter, ws: WriteSet, rs: ReadSet)
    requires LiveOk(dom, it, ws, rs) && |it.visited| == it.nexts + 1
    ensures LiveOk(dom, Advance(it), ws, rs)
  {
    var t := it.tracker;
    var u := Advance(it);
    AfterIsSuffix(t.ascending, it.parent, it.cache);
    hide SidesOk, Shadowed, SameOn, Before, HeadKey, ParentAfter, CacheAfter, Suffix;
    HeadBeforeRest(t.ascending, t.range, it.parent, it.cache, u.parent, u.cache);
    ShadowedAdvance(dom, t.ascending, t.range, KeysIn(t.range, t.writeset.Keys), it.parent, it.cache, u.parent,
                    u.cache);
    SidesSuffix(t.ascending, t.range, it.parent, it.cache, u.parent, u.cache);
    PassedSuffix(t.ascending, t.range, it.visited[..it.nexts], it.parent, it.cache, u.parent, u.cache);
    PassedMore(t.ascending, it.visited, it.nexts, u.parent, u.cache);
  }

  lemma PassedMore(asc: bool, visited: seq<Key>, n: nat, parent: seq<Entry>, cache: seq<Key>)
    requires n < |visited| && Passed(asc, visited[..n], parent, cache)
    requires AllAfter(asc, visited[n], EntryKeys(parent)) && AllAfter(asc, visited[n], cache)
    ensures Passed(asc, visited[..n + 1], parent, cache)
  {
    hide AllAfter;
    assert visited[..n + 1] == visited[..n] + [visited[n]];
  }
}

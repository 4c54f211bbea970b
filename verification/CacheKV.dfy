/** `cachekv.Store`: a write-back cache whose sorted index is brought up to date only by iteration. */
module CacheKV {
  import opened Bytes
  import opened MergeIterator
  import opened Listing

  datatype CValue = CValue(value: Option<Bytes>, dirty: bool)

  /** What the cache says about a key. */
  function Pending(cache: map<Key, CValue>): (ws: WriteSet)
    ensures ws.Keys == cache.Keys && forall k :: k in cache ==> ws[k] == cache[k].value
  {
    map k | k in cache :: cache[k].value
  }

  // ----- The B-tree's step iterator -----

  /** `memIterator`: a cursor in the ascending items of the tree, moving either way. */
  class MemIterator {
    const items: seq<Write>
    const range: Range
    const ascending: bool
    var cursor: int
    var valid: bool

    ghost predicate Valid() reads this {
      && Ordered(true, WriteKeys(items))
      && (valid <==> 0 <= cursor < |items| && KeyInRange(ascending, range, items[cursor].key))
    }

    ghost function Left(): seq<Write>
      requires Valid()
      reads this
    {
      if !valid then [] else Ahead(ascending, range, items, cursor)
    }

    constructor (items: seq<Write>, range: Range, ascending: bool)
      requires Ordered(true, WriteKeys(items))
      ensures Valid() && this.items == items && this.range == range && this.ascending == ascending
      ensures Left() == Ahead(ascending, range, items, StartAt(ascending, range, items))
    {
      this.items, this.range, this.ascending := items, range, ascending;
      var c := 0;
      if ascending {
        if range.start.Some? { c := Seek(items, range.start.value); }
      } else if range.end.Some? {
        c := Seek(items, range.end.value);
        c := c - 1;
      } else {
        c := |items| - 1;
      }
      cursor := c;
      valid := 0 <= c < |items| && KeyInRange(ascending, range, items[c].key);
    }

    /** `Key` and `Value` of the current item. */
    method Current() returns (w: Write)
      requires Valid() && valid
      ensures Left() != [] && w == Left()[0]
    {
      w := items[cursor];
    }

    method Next()
      requires Valid() && valid
      modifies this
      ensures Valid() && Left() == old(Left())[1..]
    {
      assert Left() == [items[cursor]] + Ahead(ascending, range, items, if ascending then cursor + 1 else cursor - 1);
      cursor := if ascending then cursor + 1 else cursor - 1;
      valid := 0 <= cursor < |items|;
      if valid { valid := KeyInRange(ascending, range, items[cursor].key); }
    }
  }

  /** `keyInRange`: only the bound ahead of the cursor is tested. */
  predicate KeyInRange(ascending: bool, r: Range, k: Key) {
    (ascending && r.end.Some? ==> Less(k, r.end.value)) && (!ascending && r.start.Some? ==> !Less(k, r.start.value))
  }

  /** The B-tree's Seek: the first position whose key is not below `pivot`. */
  method Seek(items: seq<Write>, pivot: Key) returns (c: nat)
    ensures c == SeekPos(items, pivot)
  {
    c := 0;
    while c < |items| && Less(items[c].key, pivot)
      invariant 0 <= c <= |items| && SeekPos(items, pivot) == c + SeekPos(items[c..], pivot)
    {
      assert items[c..][1..] == items[c + 1..];
      c := c + 1;
    }
  }

  function SeekPos(items: seq<Write>, pivot: Key): (c: nat)
    ensures c <= |items|
  {
    if items == [] || !Less(items[0].key, pivot) then 0 else 1 + SeekPos(items[1..], pivot)
  }

  /** Where the cursor starts; -1 or the length when there is nothing to visit. A failed Seek going
      down falls back to the last item, which is the position before the end. */
  function StartAt(ascending: bool, r: Range, items: seq<Write>): int {
    if ascending then (if r.start.Some? then SeekPos(items, r.start.value) else 0)
    else (if r.end.Some? then SeekPos(items, r.end.value) else |items|) - 1
  }

  /** What the iterator still yields from position `c` on. */
  function Ahead(ascending: bool, r: Range, items: seq<Write>, c: int): seq<Write>
    decreases if ascending then |items| - c else c
  {
    if !(0 <= c < |items|) || !KeyInRange(ascending, r, items[c].key) then []
    else [items[c]] + Ahead(ascending, r, items, if ascending then c + 1 else c - 1)
  }

  function Toward(ascending: bool, c: int, i: int): int {
    if ascending then c + i else c - i
  }

  /** A run of consecutive items, up to the first one out of range. */
  lemma {:induction false} AheadRun(ascending: bool, r: Range, items: seq<Write>, c: int)
    ensures var a := Ahead(ascending, r, items, c);
            && (forall i :: 0 <= i < |a| ==>
                  0 <= Toward(ascending, c, i) < |items| && a[i] == items[Toward(ascending, c, i)])
            && (var e := Toward(ascending, c, |a|); !(0 <= e < |items|) || !KeyInRange(ascending, r, items[e].key))
    decreases if ascending then |items| - c else c
  {
    if 0 <= c < |items| && KeyInRange(ascending, r, items[c].key) {
      var d := if ascending then c + 1 else c - 1;
      AheadRun(ascending, r, items, d);
      var a, b := Ahead(ascending, r, items, c), Ahead(ascending, r, items, d);
      forall i | 0 <= i < |a| ensures 0 <= Toward(ascending, c, i) < |items| && a[i] == items[Toward(ascending, c, i)] {
        if i > 0 { assert a[i] == b[i - 1] && Toward(ascending, c, i) == Toward(ascending, d, i - 1); }
      }
      assert Toward(ascending, c, |a|) == Toward(ascending, d, |b|);
    }
  }

  lemma {:induction false} SeekSplits(items: seq<Write>, pivot: Key, j: int)
    requires Ordered(true, WriteKeys(items)) && 0 <= j < |items|
    ensures j < SeekPos(items, pivot) <==> Less(items[j].key, pivot)
  {
    if Less(items[0].key, pivot) {
      if j > 0 {
        ConsWrites(items);
        TailOrdered(true, WriteKeys(items), WriteKeys(items[1..]));
        SeekSplits(items[1..], pivot, j - 1);
      }
    } else if j > 0 {
      assert Before(true, WriteKeys(items)[0], WriteKeys(items)[j]);
      if Less(items[j].key, pivot) { LessTransitive(items[0].key, items[j].key, pivot); assert false; }
    }
  }

  /** The bound behind the cursor is handled by where it starts. */
  lemma StartSplits(ascending: bool, r: Range, items: seq<Write>, j: int)
    requires Ordered(true, WriteKeys(items)) && 0 <= j < |items|
    ensures var c := StartAt(ascending, r, items);
            InRange(r, items[j].key) <==>
              (if ascending then c <= j else j <= c) && KeyInRange(ascending, r, items[j].key)
  {
    if r.start.Some? { SeekSplits(items, r.start.value, j); }
    if r.end.Some? { SeekSplits(items, r.end.value, j); }
  }

  /** Once out of range ahead, always out of range. */
  lemma RangeIsConvex(ascending: bool, r: Range, items: seq<Write>, e: int, j: int)
    requires Ordered(true, WriteKeys(items)) && 0 <= e < |items| && 0 <= j < |items|
    requires (if ascending then e <= j else j <= e) && !KeyInRange(ascending, r, items[e].key)
    ensures !KeyInRange(ascending, r, items[j].key)
  {
    if ascending {
      if e < j {
        assert Before(true, WriteKeys(items)[e], WriteKeys(items)[j]);
        if Less(items[j].key, r.end.value) { LessTransitive(items[e].key, items[j].key, r.end.value); assert false; }
      }
    } else if j < e {
      assert Before(true, WriteKeys(items)[j], WriteKeys(items)[e]);
      LessTransitive(items[j].key, items[e].key, r.start.value);
    }
  }

  /** Either way, the iterator yields exactly the items in range, in its direction. */
  lemma AheadElements(ascending: bool, r: Range, items: seq<Write>, w: Write)
    requires Ordered(true, WriteKeys(items))
    ensures w in Ahead(ascending, r, items, StartAt(ascending, r, items)) <==> w in items && InRange(r, w.key)
  {
    var c := StartAt(ascending, r, items);
    var a := Ahead(ascending, r, items, c);
    AheadRun(ascending, r, items, c);
    if w in a {
      var i :| 0 <= i < |a| && a[i] == w;
      AheadInRange(ascending, r, items, c, i);
      StartSplits(ascending, r, items, Toward(ascending, c, i));
    }
    if w in items && InRange(r, w.key) {
      var j :| 0 <= j < |items| && items[j] == w;
      StartSplits(ascending, r, items, j);
      var e := Toward(ascending, c, |a|);
      var i := if ascending then j - c else c - j;
      if i >= |a| {
        if 0 <= e < |items| { RangeIsConvex(ascending, r, items, e, j); }
        assert false;
      }
      assert a[i] == w;
    }
  }

  lemma {:induction false} AheadInRange(ascending: bool, r: Range, items: seq<Write>, c: int, i: int)
    requires 0 <= i < |Ahead(ascending, r, items, c)|
    ensures 0 <= Toward(ascending, c, i) < |items| && KeyInRange(ascending, r, items[Toward(ascending, c, i)].key)
    decreases i
  {
    if i > 0 { AheadInRange(ascending, r, items, if ascending then c + 1 else c - 1, i - 1); }
  }

  const Everything := Range(None, None)

  lemma MemIteratorYields(ascending: bool, r: Range, ws: WriteSet)
    ensures var items := WritesOf(true, Everything, ws);
            Ahead(ascending, r, items, StartAt(ascending, r, items)) == WritesOf(ascending, r, ws)
  {
    var items := WritesOf(true, Everything, ws);
    var a := Ahead(ascending, r, items, StartAt(ascending, r, items));
    var b := WritesOf(ascending, r, ws);
    AheadOrdered(ascending, r, items);
    forall w: Write ensures w in a <==> w in b {
      AheadElements(ascending, r, items, w);
      WritesOfElements(true, Everything, ws, w);
      WritesOfElements(ascending, r, ws, w);
    }
    SameWrites(ascending, a, b);
  }

  lemma AheadOrdered(ascending: bool, r: Range, items: seq<Write>)
    requires Ordered(true, WriteKeys(items))
    ensures Ordered(ascending, WriteKeys(Ahead(ascending, r, items, StartAt(ascending, r, items))))
  {
    var c := StartAt(ascending, r, items);
    var a := Ahead(ascending, r, items, c);
    AheadRun(ascending, r, items, c);
    forall i, j | 0 <= i < j < |a| ensures Before(ascending, WriteKeys(a)[i], WriteKeys(a)[j]) {
      var x, y := Toward(ascending, c, i), Toward(ascending, c, j);
      if ascending { assert Before(true, WriteKeys(items)[x], WriteKeys(items)[y]); }
      else { assert Before(true, WriteKeys(items)[y], WriteKeys(items)[x]); }
    }
  }

  lemma SameWrites(ascending: bool, s: seq<Write>, t: seq<Write>)
    requires Ordered(ascending, WriteKeys(s)) && Ordered(ascending, WriteKeys(t))
    requires forall w: Write :: w in s <==> w in t
    ensures s == t
  {
    forall k: Bytes ensures k in WriteKeys(s) <==> k in WriteKeys(t) {
      if k in WriteKeys(s) { WriteAt(s, t, k); }
      if k in WriteKeys(t) { WriteAt(t, s, k); }
    }
    OrderedUnique(ascending, WriteKeys(s), WriteKeys(t));
    forall i | 0 <= i < |s| ensures s[i] == t[i] {
      assert WriteKeys(s)[i] == WriteKeys(t)[i];
      assert s[i] in t;
      var j :| 0 <= j < |t| && t[j] == s[i];
      if i < j { BeforeIsStrict(ascending, WriteKeys(t)[i], WriteKeys(t)[j]); assert false; }
      if j < i { BeforeIsStrict(ascending, WriteKeys(t)[j], WriteKeys(t)[i]); assert false; }
    }
  }

  lemma WriteAt(s: seq<Write>, t: seq<Write>, k: Bytes)
    requires k in WriteKeys(s) && forall w: Write :: w in s ==> w in t
    ensures k in WriteKeys(t)
  {
    var i :| 0 <= i < |s| && WriteKeys(s)[i] == k;
    assert s[i] in t;
    var j :| 0 <= j < |t| && t[j] == s[i];
    assert WriteKeys(t)[j] == k;
  }

  // ----- The store -----

  /** The invariant: a cached key whose index entry is missing or stale is still listed as unsorted. */
  ghost predicate IndexOk(cache: map<Key, CValue>, unsorted: set<Key>, index: WriteSet) {
    && unsorted <= cache.Keys && index.Keys <= cache.Keys
    && (forall k :: k in cache ==> cache[k].dirty)
    && (forall k :: k in cache && k !in unsorted ==> k in index && index[k] == cache[k].value)
  }

  class Store {
    var cache: map<Key, CValue>
    var unsortedCache: set<Key>
    var sortedCache: Option<WriteSet>
    var parent: KVMap

    /** The B-tree's contents; a tree not yet allocated holds nothing. */
    function Index(): WriteSet reads this {
      if sortedCache.None? then map[] else sortedCache.value
    }

    ghost predicate Valid() reads this {
      IndexOk(cache, unsortedCache, Index())
    }

    /** The map a caller of this store sees. */
    function View(): KVMap reads this {
      Overlay(parent, Pending(cache))
    }

    constructor (parent: KVMap)
      ensures Valid() && View() == parent && this.parent == parent && cache == map[]
    {
      this.parent, cache, unsortedCache, sortedCache := parent, map[], {}, None;
      OverlayUnique(parent, map[], parent);
    }

    method Get(k: Key) returns (v: Option<Bytes>)
      ensures v == Lookup(View(), k)
    {
      if k in cache { return cache[k].value; }
      return Lookup(parent, k);
    }

    method SetCacheValue(k: Key, v: Option<Bytes>)
      requires Valid()
      modifies this`cache, this`unsortedCache
      ensures Valid() && cache == old(cache)[k := CValue(v, true)]
      ensures forall j: Key :: Lookup(View(), j) == if j == k then v else Lookup(old(View()), j)
    {
      cache := cache[k := CValue(v, true)];
      unsortedCache := unsortedCache + {k};
    }

    method Set(k: Key, v: Bytes)
      requires Valid()
      modifies this`cache, this`unsortedCache
      ensures Valid() && View() == old(View())[k := v]
    {
      ghost var was := View();
      SetCacheValue(k, Some(v));
      SameMap(View(), was[k := v]);
    }

    method Delete(k: Key)
      requires Valid()
      modifies this`cache, this`unsortedCache
      ensures Valid() && View() == old(View()) - {k}
    {
      ghost var was := View();
      SetCacheValue(k, None);
      SameMap(View(), was - {k});
    }

    /** Writes every dirty entry to the parent, in whatever order; the cache itself is kept. */
    method Write()
      requires Valid()
      modifies this`parent
      ensures Valid() && parent == old(View()) && View() == old(View())
    {
      ghost var was := parent;
      var todo := cache.Keys;
      while todo != {}
        invariant todo <= cache.Keys
        invariant forall k: Key ::
                    Lookup(parent, k) == if k in cache && k !in todo then cache[k].value else Lookup(was, k)
        decreases todo
      {
        var k :| k in todo;
        if cache[k].dirty {
          if cache[k].value.Some? { parent := parent[k := cache[k].value.value]; } else { parent := parent - {k}; }
        }
        todo := todo - {k};
      }
      OverlayUnique(was, Pending(cache), parent);
      OverlayTwice(was, Pending(cache));
    }

    /** `dirtyItems`: moves the unsorted keys of the range into the index. */
    method DirtyItems(r: Range)
      requires Valid()
      modifies this`unsortedCache, this`sortedCache
      ensures Valid()
      ensures !Inverted(r) ==> sortedCache.Some? && forall k :: k in unsortedCache ==> !InRange(r, k)
      ensures Inverted(r) ==> sortedCache == old(sortedCache)
    {
      if Inverted(r) { return; }
      var moved := KeysIn(r, unsortedCache);
      var index := Index();
      var todo := moved;
      while todo != {}
        invariant todo <= moved <= cache.Keys && index.Keys == Index().Keys + (moved - todo)
        invariant forall k :: k in index ==> index[k] == if k in moved && k !in todo then cache[k].value else Index()[k]
        decreases todo
      {
        var k :| k in todo;
        index := index[k := cache[k].value];
        todo := todo - {k};
      }
      unsortedCache := unsortedCache - moved;
      sortedCache := Some(index);
    }

    /** An iterator in either direction, or None for the panic of an inverted range on a store whose
        index was never allocated. What it yields is fixed at this moment. */
    method Iterator(r: Range, ascending: bool) returns (it: CacheMergeIterator?)
      requires Valid()
      modifies this`unsortedCache, this`sortedCache
      ensures Valid() && View() == old(View())
      ensures it == null <==>
                r.start.Some? && r.end.Some? && Less(r.end.value, r.start.value) && old(sortedCache).None?
      ensures it != null ==> fresh(it) && it.Valid() && it.Left() == EntriesOf(ascending, r, View())
    {
      DirtyItems(r);
      if sortedCache.None? { return null; }
      var entries := ListEntries(ascending, r, parent);
      var cached := ListCached(sortedCache.value, r, ascending);
      IndexCoversRange(cache, unsortedCache, Index(), r, ascending);
      MergeIsOverlayScan(ascending, r, parent, Pending(cache));
      it := new CacheMergeIterator(entries, cached, ascending);
    }
  }

  /** Start after end. */
  predicate Inverted(r: Range) {
    r.start.Some? && r.end.Some? && Less(r.end.value, r.start.value)
  }

  /** Drains a step iterator over a copy of the index. */
  method ListCached(index: WriteSet, r: Range, ascending: bool) returns (out: seq<Write>)
    ensures out == WritesOf(ascending, r, index)
  {
    var items := ListWrites(true, Everything, index);
    var it := new MemIterator(items, r, ascending);
    MemIteratorYields(ascending, r, index);
    out := DrainIndex(it);
  }

  method DrainIndex(it: MemIterator) returns (out: seq<Write>)
    requires it.Valid()
    modifies it
    ensures out == old(it.Left())
  {
    out := [];
    ghost var left := it.Left();
    while it.valid
      invariant it.Valid() && left == it.Left() && out + left == old(it.Left())
      decreases |left|
    {
      var w := it.Current();
      assert left == [w] + left[1..];
      out := out + [w];
      it.Next();
      left := left[1..];
    }
  }

  lemma SameMap(a: KVMap, b: KVMap)
    requires forall k: Key :: Lookup(a, k) == Lookup(b, k)
    ensures a == b
  {
    forall k: Key ensures (k in a <==> k in b) && (k in a ==> a[k] == b[k]) { assert Lookup(a, k) == Lookup(b, k); }
  }

  lemma OverlayTwice(m: KVMap, ws: WriteSet)
    ensures Overlay(Overlay(m, ws), ws) == Overlay(m, ws)
  {
    SameMap(Overlay(Overlay(m, ws), ws), Overlay(m, ws));
  }

  /** When nothing in range is left unsorted, the index and the cache agree on the range. An inverted
      range holds no keys, so there it does not matter what is left unsorted. */
  lemma IndexCoversRange(cache: map<Key, CValue>, unsorted: set<Key>, index: WriteSet, r: Range, ascending: bool)
    requires IndexOk(cache, unsorted, index)
    requires !Inverted(r) ==> forall k :: k in unsorted ==> !InRange(r, k)
    ensures WritesOf(ascending, r, index) == WritesOf(ascending, r, Pending(cache))
  {
    var a, b := WritesOf(ascending, r, index), WritesOf(ascending, r, Pending(cache));
    forall w: Write ensures w in a <==> w in b {
      WritesOfElements(ascending, r, index, w);
      WritesOfElements(ascending, r, Pending(cache), w);
      if Inverted(r) && InRange(r, w.key) {
        LessTransitive(w.key, r.end.value, r.start.value);
        assert false;
      }
    }
    SameWrites(ascending, a, b);
  }

  // ----- Stacks of caches -----

  /** What the top of a stack of caches shows; the last cache is the top. */
  function StackView(base: KVMap, caches: seq<WriteSet>): KVMap {
    if caches == [] then base else Overlay(StackView(base, caches[..|caches| - 1]), caches[|caches| - 1])
  }

  /** Writing the top cache into the store below it: its entries join the cache there, or the base. */
  function WriteTop(base: KVMap, caches: seq<WriteSet>): (KVMap, seq<WriteSet>)
    requires caches != []
  {
    var top, n := caches[|caches| - 1], |caches|;
    if n == 1 then (Overlay(base, top), caches)
    else (base, caches[n - 2 := caches[n - 2] + top])
  }

  /** Writing every cache in turn, from the top of the stack down to the base. */
  function WriteDown(base: KVMap, caches: seq<WriteSet>): KVMap
    decreases |caches|
  {
    if caches == [] then base
    else
      var (b, cs) := WriteTop(base, caches);
      WriteDown(b, cs[..|cs| - 1])
  }

  lemma OverlayChain(m: KVMap, a: WriteSet, b: WriteSet)
    ensures Overlay(Overlay(m, a), b) == Overlay(m, a + b)
  {
    SameMap(Overlay(Overlay(m, a), b), Overlay(m, a + b));
  }

  /** One write moves the view of the top store down to the store below it. */
  lemma WriteTopKeepsView(base: KVMap, caches: seq<WriteSet>)
    requires caches != []
    ensures var (b, cs) := WriteTop(base, caches);
            StackView(b, cs[..|cs| - 1]) == StackView(base, caches) && StackView(b, cs) == StackView(base, caches)
  {
    hide Overlay;
    var top, n := caches[|caches| - 1], |caches|;
    if n == 1 {
      assert caches[..0] == [];
      OverlayTwice(base, top);
    } else {
      var cs := caches[n - 2 := caches[n - 2] + top];
      var below := StackView(base, caches[..n - 2]);
      assert caches[..n - 1][..n - 2] == caches[..n - 2] == cs[..n - 1][..n - 2];
      assert cs[..n - 1][n - 2] == caches[n - 2] + top;
      OverlayChain(below, caches[n - 2], top);
      OverlayTwice(Overlay(below, caches[n - 2]), top);
    }
  }

  /** Writing a whole stack leaves the base equal to what its top showed before. */
  lemma {:induction false} WriteDownIsView(base: KVMap, caches: seq<WriteSet>)
    ensures WriteDown(base, caches) == StackView(base, caches)
    decreases |caches|
  {
    if caches != [] {
      var (b, cs) := WriteTop(base, caches);
      WriteTopKeepsView(base, caches);
      WriteDownIsView(b, cs[..|cs| - 1]);
    }
  }
}

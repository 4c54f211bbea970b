/** The two-way merge of a parent iterator with an iterator over cached writes
    (`cachekv/internal/mergeiterator.go`; `multiversion/mergeiterator.go` walks the same way). */
module MergeIterator {
  import opened Bytes

  datatype Entry = Entry(key: Key, value: Bytes)

  /** A cached write; a nil value is a deletion. */
  datatype Write = Write(key: Key, value: Option<Bytes>)

  type WriteSet = map<Key, Option<Bytes>>

  /** The store seen through pending writes: writes shadow the store, nil hides. */
  function Overlay(m: KVMap, ws: WriteSet): (r: KVMap)
    ensures forall k: Key :: Lookup(r, k) == if k in ws then ws[k] else Lookup(m, k)
  {
    map k | k in m.Keys + ws.Keys && (k in ws ==> ws[k].Some?) :: if k in ws then ws[k].value else m[k]
  }

  lemma OverlayUnique(m: KVMap, ws: WriteSet, r: KVMap)
    requires forall k: Key :: Lookup(r, k) == if k in ws then ws[k] else Lookup(m, k)
    ensures r == Overlay(m, ws)
  {
    var o := Overlay(m, ws);
    forall k: Key ensures (k in r <==> k in o) && (k in r ==> r[k] == o[k]) {
      assert Lookup(r, k) == Lookup(o, k);
    }
  }

  function EntryKeys(s: seq<Entry>): (ks: seq<Key>)
    ensures |ks| == |s| && forall i :: 0 <= i < |s| ==> ks[i] == s[i].key
  {
    seq(|s|, i requires 0 <= i < |s| => s[i].key)
  }

  function WriteKeys(s: seq<Write>): (ks: seq<Key>)
    ensures |ks| == |s| && forall i :: 0 <= i < |s| ==> ks[i] == s[i].key
  {
    seq(|s|, i requires 0 <= i < |s| => s[i].key)
  }

  /** What an iterator over a map yields. */
  ghost function EntriesOf(ascending: bool, r: Range, m: KVMap): (s: seq<Entry>)
    ensures EntryKeys(s) == Scan(ascending, r, m.Keys)
    ensures forall i :: 0 <= i < |s| ==> s[i].key in m && s[i].value == m[s[i].key]
  {
    var ks := Scan(ascending, r, m.Keys);
    assert forall i :: 0 <= i < |ks| ==> ks[i] in m.Keys;
    seq(|ks|, i requires 0 <= i < |ks| => Entry(ks[i], m[ks[i]]))
  }

  ghost function WritesOf(ascending: bool, r: Range, ws: WriteSet): (s: seq<Write>)
    ensures WriteKeys(s) == Scan(ascending, r, ws.Keys)
    ensures forall i :: 0 <= i < |s| ==> s[i].key in ws && s[i].value == ws[s[i].key]
  {
    var ks := Scan(ascending, r, ws.Keys);
    assert forall i :: 0 <= i < |ks| ==> ks[i] in ws.Keys;
    seq(|ks|, i requires 0 <= i < |ks| => Write(ks[i], ws[ks[i]]))
  }

  predicate Sides(ascending: bool, parent: seq<Entry>, cache: seq<Write>) {
    Ordered(ascending, EntryKeys(parent)) && Ordered(ascending, WriteKeys(cache))
  }

  /** Everything a merge iterator at this position still has to emit. */
  function Remaining(ascending: bool, parent: seq<Entry>, cache: seq<Write>): seq<Entry>
    decreases |parent| + |cache|
  {
    if cache == [] then parent
    else if parent == [] || Before(ascending, cache[0].key, parent[0].key) then
      Emit(cache[0]) + Remaining(ascending, parent, cache[1..])
    else if parent[0].key == cache[0].key then
      Emit(cache[0]) + Remaining(ascending, parent[1..], cache[1..])
    else
      [parent[0]] + Remaining(ascending, parent[1..], cache)
  }

  function Emit(w: Write): seq<Entry> {
    if w.value.Some? then [Entry(w.key, w.value.value)] else []
  }

  /** Which entries the merge emits: live writes, and parent entries no write shadows. */
  predicate Emitted(parent: seq<Entry>, cache: seq<Write>, e: Entry) {
    Write(e.key, Some(e.value)) in cache || (e in parent && e.key !in WriteKeys(cache))
  }

  lemma {:induction false} RemainingElements(ascending: bool, parent: seq<Entry>, cache: seq<Write>, e: Entry)
    requires Sides(ascending, parent, cache)
    ensures e in Remaining(ascending, parent, cache) <==> Emitted(parent, cache, e)
    decreases |parent| + |cache|
  {
    if cache == [] {
    } else if parent == [] {
      DropWrite(ascending, parent, cache, e);
      RemainingElements(ascending, parent, cache[1..], e);
    } else {
      BeforeTotal(ascending, cache[0].key, parent[0].key);
      if Before(ascending, cache[0].key, parent[0].key) {
        DropWrite(ascending, parent, cache, e);
        RemainingElements(ascending, parent, cache[1..], e);
      } else if parent[0].key == cache[0].key {
        DropBoth(ascending, parent, cache, e);
        RemainingElements(ascending, parent[1..], cache[1..], e);
      } else {
        DropEntry(ascending, parent, cache, e);
        RemainingElements(ascending, parent[1..], cache, e);
      }
    }
  }

  lemma DropWrite(ascending: bool, parent: seq<Entry>, cache: seq<Write>, e: Entry)
    requires Sides(ascending, parent, cache) && cache != []
    requires parent == [] || Before(ascending, cache[0].key, parent[0].key)
    ensures Sides(ascending, parent, cache[1..])
    ensures Emitted(parent, cache, e) <==> e in Emit(cache[0]) || Emitted(parent, cache[1..], e)
  {
    SplitWrites(ascending, cache, e);
    KeyOf(parent, e);
    if parent != [] { HeadsOrdered(ascending, cache[0].key, EntryKeys(parent)); }
  }

  lemma DropBoth(ascending: bool, parent: seq<Entry>, cache: seq<Write>, e: Entry)
    requires Sides(ascending, parent, cache) && cache != [] && parent != [] && parent[0].key == cache[0].key
    ensures Sides(ascending, parent[1..], cache[1..])
    ensures Emitted(parent, cache, e) <==> e in Emit(cache[0]) || Emitted(parent[1..], cache[1..], e)
  {
    SplitWrites(ascending, cache, e);
    SplitEntries(ascending, parent, e);
  }

  lemma DropEntry(ascending: bool, parent: seq<Entry>, cache: seq<Write>, e: Entry)
    requires Sides(ascending, parent, cache) && cache != [] && parent != []
    requires Before(ascending, parent[0].key, cache[0].key)
    ensures Sides(ascending, parent[1..], cache)
    ensures Emitted(parent, cache, e) <==> e == parent[0] || Emitted(parent[1..], cache, e)
  {
    SplitEntries(ascending, parent, e);
    HeadsOrdered(ascending, parent[0].key, WriteKeys(cache));
  }

  lemma ConsWrites(s: seq<Write>)
    requires s != []
    ensures s == [s[0]] + s[1..] && WriteKeys(s)[1..] == WriteKeys(s[1..])
  {
  }

  lemma ConsEntries(s: seq<Entry>)
    requires s != []
    ensures s == [s[0]] + s[1..] && EntryKeys(s)[1..] == EntryKeys(s[1..])
  {
  }

  lemma SplitWrites(ascending: bool, cache: seq<Write>, e: Entry)
    requires Ordered(ascending, WriteKeys(cache)) && cache != []
    ensures Ordered(ascending, WriteKeys(cache[1..]))
    ensures Write(e.key, Some(e.value)) in cache <==> e in Emit(cache[0]) || Write(e.key, Some(e.value)) in cache[1..]
    ensures e.key in WriteKeys(cache) <==> e.key == cache[0].key || e.key in WriteKeys(cache[1..])
    ensures cache[0].key !in WriteKeys(cache[1..])
  {
    ConsWrites(cache);
    HeadIsFirst(ascending, WriteKeys(cache));
  }

  lemma SplitEntries(ascending: bool, parent: seq<Entry>, e: Entry)
    requires Ordered(ascending, EntryKeys(parent)) && parent != []
    ensures Ordered(ascending, EntryKeys(parent[1..]))
    ensures e in parent <==> e == parent[0] || e in parent[1..]
    ensures e in parent[1..] ==> e.key != parent[0].key
  {
    ConsEntries(parent);
    HeadIsFirst(ascending, EntryKeys(parent));
    KeyOf(parent[1..], e);
  }

  lemma KeyOf(s: seq<Entry>, e: Entry)
    ensures e in s ==> e.key in EntryKeys(s)
  {
    if e in s {
      var i :| 0 <= i < |s| && s[i] == e;
      assert EntryKeys(s)[i] == e.key;
    }
  }

  lemma HeadIsFirst(ascending: bool, ks: seq<Key>)
    requires ks != [] && Ordered(ascending, ks)
    ensures Ordered(ascending, ks[1..]) && ks[0] !in ks[1..]
    ensures forall k :: k in ks <==> k == ks[0] || k in ks[1..]
  {
    assert ks == [ks[0]] + ks[1..];
    forall i | 1 <= i < |ks| ensures ks[0] != ks[i] { BeforeIsStrict(ascending, ks[0], ks[i]); }
  }

  lemma HeadsOrdered(ascending: bool, k: Key, ks: seq<Key>)
    requires ks != [] && Ordered(ascending, ks) && Before(ascending, k, ks[0])
    ensures k !in ks && AllAfter(ascending, k, ks)
  {
    forall i | 0 <= i < |ks| ensures Before(ascending, k, ks[i]) && k != ks[i] {
      if i > 0 { BeforeTransitive(ascending, k, ks[0], ks[i]); }
      BeforeIsStrict(ascending, k, ks[i]);
    }
  }

  predicate AllAfter(ascending: bool, k: Key, ks: seq<Key>) {
    forall i :: 0 <= i < |ks| ==> Before(ascending, k, ks[i])
  }

  /** The merge visits keys in iteration order, so it repeats none. */
  lemma {:induction false} RemainingOrdered(ascending: bool, parent: seq<Entry>, cache: seq<Write>)
    requires Sides(ascending, parent, cache)
    ensures Ordered(ascending, EntryKeys(Remaining(ascending, parent, cache)))
    decreases |parent| + |cache|
  {
    if cache != [] {
      var c := cache[0];
      TailOrdered(ascending, WriteKeys(cache), WriteKeys(cache[1..]));
      if parent == [] {
        RemainingOrdered(ascending, parent, cache[1..]);
        RemainingAfter(ascending, c.key, parent, cache[1..]);
        ConsOrdered(ascending, Emit(c), c.key, Remaining(ascending, parent, cache[1..]));
      } else {
        var p := parent[0];
        TailOrdered(ascending, EntryKeys(parent), EntryKeys(parent[1..]));
        BeforeTotal(ascending, c.key, p.key);
        if Before(ascending, c.key, p.key) {
          RemainingOrdered(ascending, parent, cache[1..]);
          HeadsOrdered(ascending, c.key, EntryKeys(parent));
          RemainingAfter(ascending, c.key, parent, cache[1..]);
          ConsOrdered(ascending, Emit(c), c.key, Remaining(ascending, parent, cache[1..]));
        } else if p.key == c.key {
          RemainingOrdered(ascending, parent[1..], cache[1..]);
          RemainingAfter(ascending, c.key, parent[1..], cache[1..]);
          ConsOrdered(ascending, Emit(c), c.key, Remaining(ascending, parent[1..], cache[1..]));
        } else {
          RemainingOrdered(ascending, parent[1..], cache);
          HeadsOrdered(ascending, p.key, WriteKeys(cache));
          RemainingAfter(ascending, p.key, parent[1..], cache);
          ConsOrdered(ascending, [p], p.key, Remaining(ascending, parent[1..], cache));
        }
      }
    }
  }

  lemma ConsOrdered(ascending: bool, head: seq<Entry>, k: Key, s: seq<Entry>)
    requires |head| <= 1 && forall e :: e in head ==> e.key == k
    requires Ordered(ascending, EntryKeys(s))
    requires AllAfter(ascending, k, EntryKeys(s))
    ensures Ordered(ascending, EntryKeys(head + s))
  {
    assert EntryKeys(head + s) == EntryKeys(head) + EntryKeys(s);
    assert forall i :: 0 <= i < |head| ==> head[i].key == k;
  }

  /** A key before everything left on both sides is before everything still to be emitted. */
  lemma RemainingAfter(ascending: bool, k: Key, parent: seq<Entry>, cache: seq<Write>)
    requires Sides(ascending, parent, cache)
    requires AllAfter(ascending, k, EntryKeys(parent)) && AllAfter(ascending, k, WriteKeys(cache))
    ensures AllAfter(ascending, k, EntryKeys(Remaining(ascending, parent, cache)))
  {
    var rem := Remaining(ascending, parent, cache);
    forall i | 0 <= i < |rem| ensures Before(ascending, k, rem[i].key) {
      RemainingElements(ascending, parent, cache, rem[i]);
      if rem[i] in parent { KeyOf(parent, rem[i]); } else {
        var j :| 0 <= j < |cache| && cache[j] == Write(rem[i].key, Some(rem[i].value));
        assert WriteKeys(cache)[j] == rem[i].key;
      }
    }
  }

  lemma TailOrdered(ascending: bool, ks: seq<Key>, tail: seq<Key>)
    requires Ordered(ascending, ks) && ks != [] && tail == ks[1..]
    ensures Ordered(ascending, tail)
    ensures AllAfter(ascending, ks[0], tail)
  {
  }

  /** The merge of a map's entries with a writeset's entries is the scan of the overlay. */
  lemma MergeIsOverlayScan(ascending: bool, r: Range, m: KVMap, ws: WriteSet)
    ensures Remaining(ascending, EntriesOf(ascending, r, m), WritesOf(ascending, r, ws))
         == EntriesOf(ascending, r, Overlay(m, ws))
  {
    var parent, cache := EntriesOf(ascending, r, m), WritesOf(ascending, r, ws);
    var got, want := Remaining(ascending, parent, cache), EntriesOf(ascending, r, Overlay(m, ws));
    RemainingOrdered(ascending, parent, cache);
    forall e: Entry ensures e in got <==> InRange(r, e.key) && Lookup(Overlay(m, ws), e.key) == Some(e.value) {
      RemainingElements(ascending, parent, cache, e);
      EntriesOfElements(ascending, r, m, e);
      WritesOfElements(ascending, r, ws, Write(e.key, Some(e.value)));
      assert e.key in WriteKeys(cache) <==> e.key in ws && InRange(r, e.key);
    }
    forall e: Entry ensures e in want <==> e in got { EntriesOfElements(ascending, r, Overlay(m, ws), e); }
    SameEntries(ascending, got, want);
  }

  lemma EntriesOfElements(ascending: bool, r: Range, m: KVMap, e: Entry)
    ensures e in EntriesOf(ascending, r, m) <==> InRange(r, e.key) && Lookup(m, e.key) == Some(e.value)
  {
    var s := EntriesOf(ascending, r, m);
    if InRange(r, e.key) && Lookup(m, e.key) == Some(e.value) {
      assert e.key in EntryKeys(s);
      var i :| 0 <= i < |s| && EntryKeys(s)[i] == e.key;
      assert s[i] == e;
    }
    if e in s { KeyOf(s, e); }
  }

  lemma WritesOfElements(ascending: bool, r: Range, ws: WriteSet, w: Write)
    ensures w in WritesOf(ascending, r, ws) <==> InRange(r, w.key) && w.key in ws && ws[w.key] == w.value
  {
    var s := WritesOf(ascending, r, ws);
    if InRange(r, w.key) && w.key in ws && ws[w.key] == w.value {
      assert w.key in WriteKeys(s);
      var i :| 0 <= i < |s| && WriteKeys(s)[i] == w.key;
      assert s[i] == w;
    }
    if w in s {
      var i :| 0 <= i < |s| && s[i] == w;
      assert WriteKeys(s)[i] in WriteKeys(s);
    }
  }

  lemma SameEntries(ascending: bool, s: seq<Entry>, t: seq<Entry>)
    requires Ordered(ascending, EntryKeys(s)) && Ordered(ascending, EntryKeys(t))
    requires forall e: Entry :: e in s <==> e in t
    ensures s == t
  {
    forall k: Bytes ensures k in EntryKeys(s) <==> k in EntryKeys(t) {
      if k in EntryKeys(s) { var i :| 0 <= i < |s| && s[i].key == k; assert s[i] in t; KeyOf(t, s[i]); }
      if k in EntryKeys(t) { var i :| 0 <= i < |t| && t[i].key == k; assert t[i] in s; KeyOf(s, t[i]); }
    }
    OrderedUnique(ascending, EntryKeys(s), EntryKeys(t));
    forall i | 0 <= i < |s| ensures s[i] == t[i] {
      assert EntryKeys(s)[i] == EntryKeys(t)[i];
      assert s[i] in t;
      var j :| 0 <= j < |t| && t[j] == s[i];
      if i != j {
        if i < j { BeforeIsStrict(ascending, EntryKeys(t)[i], EntryKeys(t)[j]); }
        else { BeforeIsStrict(ascending, EntryKeys(t)[j], EntryKeys(t)[i]); }
        assert false;
      }
    }
  }

  /** `cacheMergeIterator`; each sub-iterator is the list of entries it has not passed yet. */
  class CacheMergeIterator {
    var parent: seq<Entry>
    var cache: seq<Write>
    const ascending: bool
    var valid: bool

    ghost predicate Valid() reads this {
      Sides(ascending, parent, cache) && Settled() && (valid <==> Left() != [])
    }

    /** The head of the merge is an existing entry, or nothing is left. */
    ghost predicate Settled() reads this {
      if cache == [] then true
      else if parent == [] || Before(ascending, cache[0].key, parent[0].key) || cache[0].key == parent[0].key then
        cache[0].value.Some?
      else true
    }

    ghost function Left(): seq<Entry> reads this {
      Remaining(ascending, parent, cache)
    }

    constructor (parent: seq<Entry>, cache: seq<Write>, ascending: bool)
      requires Sides(ascending, parent, cache)
      ensures Valid() && Left() == Remaining(ascending, parent, cache)
      ensures this.ascending == ascending
    {
      this.parent, this.cache, this.ascending, this.valid := parent, cache, ascending, false;
      new;
      this.valid := SkipUntilExistsOrInvalid();
    }

    method Next()
      requires Valid() && valid
      modifies this
      ensures Valid() && Left() == old(Left())[1..]
    {
      if parent == [] {
        cache := cache[1..];
      } else if cache == [] {
        parent := parent[1..];
      } else if Before(ascending, parent[0].key, cache[0].key) {
        BeforeIsStrict(ascending, parent[0].key, cache[0].key);
        parent := parent[1..];
      } else if parent[0].key == cache[0].key {
        BeforeNotSelf(ascending, cache[0].key);
        parent, cache := parent[1..], cache[1..];
      } else {
        BeforeTotal(ascending, parent[0].key, cache[0].key);
        cache := cache[1..];
      }
      valid := SkipUntilExistsOrInvalid();
    }

    method GetKey() returns (k: Key)
      requires Valid() && valid
      ensures k == Left()[0].key
    {
      if parent == [] { return cache[0].key; }
      if cache == [] { return parent[0].key; }
      BeforeTotal(ascending, parent[0].key, cache[0].key);
      if Before(ascending, parent[0].key, cache[0].key) {
        BeforeIsStrict(ascending, parent[0].key, cache[0].key);
        return parent[0].key;
      } else if parent[0].key == cache[0].key {
        return parent[0].key;
      }
      return cache[0].key;
    }

    method GetValue() returns (v: Bytes)
      requires Valid() && valid
      ensures v == Left()[0].value
    {
      if parent == [] { return cache[0].value.value; }
      if cache == [] { return parent[0].value; }
      BeforeTotal(ascending, parent[0].key, cache[0].key);
      if Before(ascending, parent[0].key, cache[0].key) {
        BeforeIsStrict(ascending, parent[0].key, cache[0].key);
        return parent[0].value;
      }
      return cache[0].value.value;
    }

    /** Drops deletions from the front of the cache, up to but excluding `until`. */
    method SkipCacheDeletes(until: Option<Key>)
      requires Sides(ascending, parent, cache)
      requires until == if parent == [] then None else Some(parent[0].key)
      modifies this`cache
      ensures Sides(ascending, parent, cache) && Left() == old(Left())
      ensures |cache| <= |old(cache)|
      ensures (old(cache) != [] && old(cache)[0].value.None?
               && (until.None? || Before(ascending, old(cache)[0].key, until.value))) ==> |cache| < |old(cache)|
      ensures cache == [] || cache[0].value.Some? || (until.Some? && !Before(ascending, cache[0].key, until.value))
    {
      while cache != [] && cache[0].value.None? && (until.None? || Before(ascending, cache[0].key, until.value))
        invariant Sides(ascending, parent, cache) && Left() == old(Left())
        invariant |cache| <= |old(cache)|
        invariant |cache| == |old(cache)| ==> cache == old(cache)
        decreases |cache|
      {
        cache := cache[1..];
      }
    }

    method SkipUntilExistsOrInvalid() returns (ok: bool)
      requires Sides(ascending, parent, cache)
      modifies this`parent, this`cache
      ensures Sides(ascending, parent, cache) && Left() == old(Left())
      ensures Settled() && (ok <==> Left() != [])
    {
      while true
        invariant Sides(ascending, parent, cache) && Left() == old(Left())
        decreases |parent| + |cache|
      {
        if parent == [] {
          SkipCacheDeletes(None);
          return cache != [];
        }
        if cache == [] { return true; }
        var keyP, keyC := parent[0].key, cache[0].key;
        BeforeTotal(ascending, keyP, keyC);
        if Before(ascending, keyP, keyC) {
          BeforeIsStrict(ascending, keyP, keyC);
          return true;
        } else if keyP == keyC {
          BeforeNotSelf(ascending, keyC);
          if cache[0].value.Some? { return true; }
          parent, cache := parent[1..], cache[1..];
        } else {
          if cache[0].value.Some? { return true; }
          SkipCacheDeletes(Some(keyP));
        }
      }
    }
  }

  lemma BeforeNotSelf(ascending: bool, k: Key)
    ensures !Before(ascending, k, k)
  {
    LessIrreflexive(k);
  }
}

/** Prefix ranges (`types/utils.go`) and the store that shows the keys under a prefix (`prefix/store.go`). */
module PrefixStore {
  import opened Bytes
  import opened Words
  import opened MergeIterator
  import opened Listing

  // ---------- the end of a prefix range ----------

  /** The last byte that is not 255 goes up by one and everything after it is dropped; None (nil) when there
      is no such byte. */
  function PrefixEnd(prefix: Bytes): Option<Key> {
    if prefix == [] then None
    else
      var n := |prefix| - 1;
      if prefix[n] != 255 then Some(prefix[..n] + [prefix[n] + 1]) else PrefixEnd(prefix[..n])
  }

  method PrefixEndBytes(prefix: Bytes) returns (r: Option<Key>)
    ensures r == PrefixEnd(prefix)
  {
    if |prefix| == 0 { return None; }
    var end := new byte[|prefix|](i requires 0 <= i < |prefix| => prefix[i]);
    assert end[..] == prefix;
    var n := end.Length;
    assert prefix[..n] == prefix;
    while true
      invariant 0 < n <= end.Length && end[..] == prefix
      invariant PrefixEnd(prefix) == PrefixEnd(prefix[..n])
      decreases n
    {
      assert prefix[..n][..n - 1] == prefix[..n - 1];
      if end[n - 1] != 255 {
        end[n - 1] := end[n - 1] + 1;
        assert end[..n] == prefix[..n - 1] + [prefix[n - 1] + 1];
        return Some(end[..n]);
      }
      n := n - 1;
      if n == 0 { return None; }
    }
  }

  /** The same end, read from the front. */
  lemma {:induction false} EndFromFront(b: byte, q: Bytes)
    ensures PrefixEnd([b] + q) ==
            match PrefixEnd(q) { case Some(e) => Some([b] + e) case None => if b < 255 then Some([b + 1]) else None }
    decreases |q|
  {
    var p, n := [b] + q, |q|;
    if q == [] {
      assert p[0] == b && p[..0] == [];
      if b < 255 { assert p[..0] + [b + 1] == [b + 1]; }
    } else {
      assert p[..n] == [b] + q[..n - 1] && p[n] == q[n - 1];
      if q[n - 1] == 255 {
        EndFromFront(b, q[..n - 1]);
      } else {
        assert p[..n] + [p[n] + 1] == [b] + (q[..n - 1] + [q[n - 1] + 1]);
      }
    }
  }

  /** The range from a prefix to its end contains exactly the strings that start with the prefix. */
  lemma {:induction false} PrefixRangeExact(p: Bytes, k: Bytes)
    ensures !Less(k, p) && (PrefixEnd(p).Some? ==> Less(k, PrefixEnd(p).value)) <==> p <= k
    decreases |p|
  {
    if p != [] && k != [] {
      assert p == [p[0]] + p[1..] && k == [k[0]] + k[1..];
      EndFromFront(p[0], p[1..]);
      PrefixRangeExact(p[1..], k[1..]);
      if PrefixEnd(p[1..]).Some? { assert PrefixEnd(p).value[1..] == PrefixEnd(p[1..]).value; }
    }
  }

  lemma PrefixKeepsOrder(p: Bytes, a: Bytes, b: Bytes)
    ensures Less(p + a, p + b) <==> Less(a, b)
  {
    LessOfConcat(p, a, p, b);
    LessIrreflexive(p);
  }

  // ---------- store names that clash ----------

  /** Somewhere in the list a name is a prefix of a name at another position. */
  ghost predicate Clash(s: seq<Bytes>) {
    exists i, j :: 0 <= i < |s| && 0 <= j < |s| && i != j && s[i] <= s[j]
  }

  /** The same, without positions. */
  ghost predicate ClashIn(names: multiset<Bytes>) {
    exists a, b :: a in names && b in names && a <= b && (a == b ==> names[a] >= 2)
  }

  lemma ClashIgnoresOrder(s: seq<Bytes>)
    ensures Clash(s) <==> ClashIn(multiset(s))
  {
    if Clash(s) {
      var i, j :| 0 <= i < |s| && 0 <= j < |s| && i != j && s[i] <= s[j];
      assert s[i] in multiset(s) && s[j] in multiset(s);
      if s[i] == s[j] { CountTwice(s, if i < j then i else j, if i < j then j else i); }
    }
    if ClashIn(multiset(s)) {
      var a, b :| a in multiset(s) && b in multiset(s) && a <= b && (a == b ==> multiset(s)[a] >= 2);
      var i :| 0 <= i < |s| && s[i] == a;
      if a == b {
        var j := AnotherIndex(s, i);
        assert s[i] <= s[j];
      } else {
        var j :| 0 <= j < |s| && s[j] == b;
        assert s[i] <= s[j];
      }
    }
  }

  /** Between a string and one of its extensions in the order lie only extensions. */
  lemma BetweenExtensions(a: Bytes, c: Bytes, b: Bytes)
    requires a <= b && LessEq(a, c) && LessEq(c, b)
    ensures a <= c
  {
    PrefixRangeExact(a, b);
    PrefixRangeExact(a, c);
    if a != c { LessAsymmetric(a, c); }
    if c != b && PrefixEnd(a).Some? { LessTransitive(c, b, PrefixEnd(a).value); }
  }

  lemma ExtensionsFollow(a: Bytes, b: Bytes)
    requires a <= b && a != b
    ensures Less(a, b)
  {
    PrefixRangeExact(a, b);
    LessTotal(a, b);
  }

  /** In sorted order it is enough to compare neighbours. */
  lemma NeighboursSuffice(s: seq<Bytes>)
    requires NameOrdered(s)
    ensures Clash(s) <==> exists i :: 0 < i < |s| && s[i - 1] <= s[i]
  {
    if Clash(s) {
      var i, j :| 0 <= i < |s| && 0 <= j < |s| && i != j && s[i] <= s[j];
      if s[i] != s[j] {
        ExtensionsFollow(s[i], s[j]);
        LessAsymmetric(s[i], s[j]);
      }
      var lo, hi := if s[i] == s[j] && j < i then j else i, if s[i] == s[j] && j < i then i else j;
      assert lo < hi && s[lo] <= s[hi];
      assert LessEq(s[lo], s[lo + 1]) && LessEq(s[lo + 1], s[hi]);
      BetweenExtensions(s[lo], s[lo + 1], s[hi]);
      assert s[lo + 1 - 1] <= s[lo + 1];
    }
    if i :| 0 < i < |s| && s[i - 1] <= s[i] {
      assert i - 1 != i;
    }
  }

  /** `assertNoCommonPrefix` panics exactly when some name is a prefix of another one. */
  method HasCommonPrefix(names: seq<Bytes>) returns (panics: bool)
    ensures panics <==> Clash(names)
  {
    var sorted := SortNames(names);
    ClashIgnoresOrder(names);
    ClashIgnoresOrder(sorted);
    NeighboursSuffice(sorted);
    var i := 1;
    while i < |sorted|
      invariant 1 <= i && forall n :: 0 < n < i && n < |sorted| ==> !(sorted[n - 1] <= sorted[n])
    {
      if sorted[i - 1] <= sorted[i] { return true; }
      i := i + 1;
    }
    return false;
  }

  // ---------- the store under a prefix ----------

  /** An entry as seen below a prefix; the key may be empty. */
  datatype Item = Item(key: Bytes, value: Bytes)

  /** The bounds a caller gives, None for nil. */
  datatype SubRange = SubRange(start: Option<Bytes>, end: Option<Bytes>)

  predicate InSubRange(r: SubRange, k: Bytes) {
    (r.start.Some? ==> !Less(k, r.start.value)) && (r.end.Some? ==> Less(k, r.end.value))
  }

  /** The range the parent is asked for. */
  function ParentRange(p: Key, r: SubRange): Range {
    Range(Some(p + Contents(r.start)), if r.end.None? then PrefixEnd(p) else Some(p + r.end.value))
  }

  /** The parent's range holds exactly the prefixed keys of the caller's range. */
  lemma ParentRangeExact(p: Key, r: SubRange, k: Bytes)
    ensures InRange(ParentRange(p, r), k) <==> p <= k && InSubRange(r, k[|p|..])
  {
    PrefixRangeExact(p, k);
    if p <= k {
      assert k == p + k[|p|..];
      PrefixKeepsOrder(p, k[|p|..], Contents(r.start));
      if r.end.Some? { PrefixKeepsOrder(p, k[|p|..], r.end.value); }
      if r.start.None? { assert !Less(k[|p|..], []); }
    } else {
      OutsideStays(p, Contents(r.start), k);
      if r.end.Some? { OutsideStays(p, r.end.value, k); }
    }
  }

  /** A key without the prefix lies on the same side of every prefixed string. */
  lemma {:induction false} OutsideStays(p: Bytes, s: Bytes, k: Bytes)
    requires !(p <= k)
    ensures Less(k, p + s) <==> Less(k, p)
    decreases |p|
  {
    if k != [] {
      assert p == [p[0]] + p[1..] && k == [k[0]] + k[1..] && (p + s)[1..] == p[1..] + s;
      if p[0] == k[0] { OutsideStays(p[1..], s, k[1..]); }
    }
  }

  /** What the parent's entries look like below the prefix, up to the first one outside. */
  function Matching(p: Bytes, es: seq<Entry>): seq<Item> {
    if es == [] || !(p <= es[0].key) then []
    else [Item(es[0].key[|p|..], es[0].value)] + Matching(p, es[1..])
  }

  lemma {:induction false} MatchingAll(p: Bytes, es: seq<Entry>)
    requires forall i :: 0 <= i < |es| ==> p <= es[i].key
    ensures |Matching(p, es)| == |es|
    ensures forall i :: 0 <= i < |es| ==> Matching(p, es)[i] == Item(es[i].key[|p|..], es[i].value)
  {
    if es != [] { MatchingAll(p, es[1..]); }
  }

  /** `prefixIterator`; `iter` is what the parent's iterator still yields. */
  class PrefixIterator {
    const prefix: Bytes
    var iter: seq<Entry>
    var valid: bool

    ghost predicate Valid() reads this {
      valid <==> iter != [] && prefix <= iter[0].key
    }

    ghost function Left(): seq<Item> reads this {
      Matching(prefix, iter)
    }

    constructor (prefix: Bytes, parent: seq<Entry>)
      ensures Valid() && this.prefix == prefix && Left() == Matching(prefix, parent)
    {
      this.prefix, iter := prefix, parent;
      valid := |parent| > 0 && prefix <= parent[0].key;
    }

    method IsValid() returns (r: bool)
      requires Valid()
      ensures r <==> Left() != []
    {
      r := valid && |iter| > 0;
    }

    /** The source panics when the iterator is not valid. */
    method Next()
      requires Valid() && Left() != []
      modifies this
      ensures Valid() && Left() == old(Left())[1..]
    {
      iter := iter[1..];
      if |iter| == 0 || !(prefix <= iter[0].key) { valid := false; }
    }

    method GetKey() returns (k: Bytes)
      requires Valid() && Left() != []
      ensures k == Left()[0].key
    {
      k := iter[0].key[|prefix|..];
    }

    method GetValue() returns (v: Bytes)
      requires Valid() && Left() != []
      ensures v == Left()[0].value
    {
      v := iter[0].value;
    }
  }

  /** The parent as seen below a prefix. */
  function Below(p: Bytes, m: KVMap): (r: map<Bytes, Bytes>)
    ensures forall k: Bytes :: k in r <==> p + k in m
    ensures forall k: Bytes :: k in r ==> r[k] == m[p + k]
  {
    var ks := set key: Key | key in m && p <= key :: key[|p|..];
    assert forall key: Key :: key in m && p <= key ==> key == p + key[|p|..];
    assert forall k: Bytes :: p + k in m ==> (p + k)[|p|..] == k;
    map k: Bytes | k in ks :: m[p + k]
  }

  function ItemKeys(s: seq<Item>): (ks: seq<Bytes>)
    ensures |ks| == |s| && forall i :: 0 <= i < |s| ==> ks[i] == s[i].key
  {
    seq(|s|, i requires 0 <= i < |s| => s[i].key)
  }

  /** The ordered list of the entries of a map within a range. */
  ghost predicate Lists(ascending: bool, r: SubRange, m: map<Bytes, Bytes>, s: seq<Item>) {
    && Ordered(ascending, ItemKeys(s))
    && (forall k :: k in ItemKeys(s) <==> k in m && InSubRange(r, k))
    && forall i :: 0 <= i < |s| ==> s[i].key in m && s[i].value == m[s[i].key]
  }

  /** Only one list is the ordered list. */
  lemma ListsUnique(ascending: bool, r: SubRange, m: map<Bytes, Bytes>, s: seq<Item>, t: seq<Item>)
    requires Lists(ascending, r, m, s) && Lists(ascending, r, m, t)
    ensures s == t
  {
    OrderedUnique(ascending, ItemKeys(s), ItemKeys(t));
    forall i | 0 <= i < |s| ensures s[i] == t[i] {
      assert ItemKeys(s)[i] == ItemKeys(t)[i];
    }
  }

  /** Iterating below a prefix, in either direction and over any range, gives the ordered entries of the
      parent that carry the prefix, with the prefix stripped. */
  lemma IterationIsView(ascending: bool, p: Key, r: SubRange, m: KVMap)
    ensures Lists(ascending, r, Below(p, m), Matching(p, EntriesOf(ascending, ParentRange(p, r), m)))
  {
    hide Below, EntriesOf, ParentRange, Matching, InSubRange, Ordered, ItemKeys;
    var es := EntriesOf(ascending, ParentRange(p, r), m);
    ScannedArePrefixed(ascending, p, r, m, es);
    MatchingAll(p, es);
    var s := Matching(p, es);
    StrippedOrdered(ascending, p, es, s);
    StrippedMembers(p, m, es, s);
    forall k
      ensures k in ItemKeys(s) <==> k in Below(p, m) && InSubRange(r, k)
    {
      StrippedKeys(ascending, p, r, m, es, s, k);
    }
  }

  lemma StrippedKeys(ascending: bool, p: Key, r: SubRange, m: KVMap, es: seq<Entry>, s: seq<Item>, k: Bytes)
    requires es == EntriesOf(ascending, ParentRange(p, r), m) && |s| == |es|
    requires forall i :: 0 <= i < |es| ==>
              p <= es[i].key && InSubRange(r, es[i].key[|p|..]) && s[i].key == es[i].key[|p|..]
    requires forall i :: 0 <= i < |s| ==> s[i].key in Below(p, m)
    ensures k in ItemKeys(s) <==> k in Below(p, m) && InSubRange(r, k)
  {
    assert k in Below(p, m) <==> p + k in m by { assert (p + k)[|p|..] == k; }
    hide EntriesOf, ParentRange, InSubRange, Below;
    if k in Below(p, m) && InSubRange(r, k) {
      var i := PrefixedAreScanned(ascending, p, r, m, es, k);
      assert ItemKeys(s)[i] == k;
    }
    if k in ItemKeys(s) { var i :| 0 <= i < |s| && ItemKeys(s)[i] == k; }
  }

  lemma ScannedArePrefixed(ascending: bool, p: Key, r: SubRange, m: KVMap, es: seq<Entry>)
    requires es == EntriesOf(ascending, ParentRange(p, r), m)
    ensures forall i :: 0 <= i < |es| ==> p <= es[i].key && InSubRange(r, es[i].key[|p|..])
  {
    forall i | 0 <= i < |es| ensures p <= es[i].key && InSubRange(r, es[i].key[|p|..]) {
      assert EntryKeys(es)[i] in Scan(ascending, ParentRange(p, r), m.Keys);
      ParentRangeExact(p, r, es[i].key);
    }
  }

  lemma PrefixedAreScanned(ascending: bool, p: Key, r: SubRange, m: KVMap, es: seq<Entry>, k: Bytes) returns (i: nat)
    requires es == EntriesOf(ascending, ParentRange(p, r), m)
    requires p + k in m && InSubRange(r, k)
    ensures i < |es| && es[i].key == p + k && es[i].key[|p|..] == k
  {
    assert (p + k)[|p|..] == k;
    ParentRangeExact(p, r, p + k);
    assert p + k in Scan(ascending, ParentRange(p, r), m.Keys);
    i :| 0 <= i < |es| && EntryKeys(es)[i] == p + k;
  }

  lemma StrippedOrdered(ascending: bool, p: Key, es: seq<Entry>, s: seq<Item>)
    requires Ordered(ascending, EntryKeys(es)) && |s| == |es|
    requires forall i :: 0 <= i < |es| ==> p <= es[i].key && s[i].key == es[i].key[|p|..]
    ensures Ordered(ascending, ItemKeys(s))
  {
    forall i, j | 0 <= i < j < |s| ensures Before(ascending, ItemKeys(s)[i], ItemKeys(s)[j]) {
      assert Before(ascending, EntryKeys(es)[i], EntryKeys(es)[j]);
      assert es[i].key == p + s[i].key && es[j].key == p + s[j].key;
      PrefixKeepsOrder(p, s[i].key, s[j].key);
      PrefixKeepsOrder(p, s[j].key, s[i].key);
    }
  }

  lemma StrippedMembers(p: Key, m: KVMap, es: seq<Entry>, s: seq<Item>)
    requires |s| == |es| && forall i :: 0 <= i < |es| ==> es[i].key in m && es[i].value == m[es[i].key]
    requires forall i :: 0 <= i < |es| ==> p <= es[i].key && s[i] == Item(es[i].key[|p|..], es[i].value)
    ensures forall i :: 0 <= i < |s| ==> s[i].key in Below(p, m) && s[i].value == Below(p, m)[s[i].key]
  {
    forall i | 0 <= i < |s| ensures s[i].key in Below(p, m) && s[i].value == Below(p, m)[s[i].key] {
      assert es[i].key == p + s[i].key;
    }
  }

  /** `prefix.Store` over a parent that is a map. */
  class Store {
    const prefix: Key
    var parent: KVMap

    constructor (parent: KVMap, prefix: Key)
      ensures this.parent == parent && this.prefix == prefix
    {
      this.parent, this.prefix := parent, prefix;
    }

    ghost function View(): map<Bytes, Bytes> reads this {
      Below(prefix, parent)
    }

    method Get(key: Bytes) returns (v: Option<Bytes>)
      ensures v == if key in View() then Some(View()[key]) else None
    {
      v := Lookup(parent, prefix + key);
    }

    /** Only keys below the prefix change, and of those only this one. */
    method Set(key: Key, value: Bytes)
      modifies this`parent
      ensures View() == old(View())[key := value]
      ensures forall k: Key :: !(prefix <= k) ==> Lookup(parent, k) == Lookup(old(parent), k)
    {
      ghost var was := parent;
      parent := parent[prefix + key := value];
      BelowUpdate(prefix, was, parent, key);
    }

    method Delete(key: Bytes)
      modifies this`parent
      ensures View() == old(View()) - {key}
      ensures forall k: Key :: !(prefix <= k) ==> Lookup(parent, k) == Lookup(old(parent), k)
    {
      ghost var was := parent;
      parent := parent - {prefix + key};
      BelowUpdate(prefix, was, parent, key);
    }

    method Iterator(r: SubRange, ascending: bool) returns (it: PrefixIterator)
      ensures fresh(it) && it.Valid() && Lists(ascending, r, View(), it.Left())
    {
      var newstart := prefix + Contents(r.start);
      var newend;
      if r.end.None? { newend := PrefixEndBytes(prefix); } else { newend := Some(prefix + r.end.value); }
      var iter := ListEntries(ascending, Range(Some(newstart), newend), parent);
      IterationIsView(ascending, prefix, r, parent);
      it := new PrefixIterator(prefix, iter);
    }
  }

  lemma BelowUpdate(p: Key, was: KVMap, now: KVMap, key: Bytes)
    requires forall k: Key :: k != p + key ==> Lookup(now, k) == Lookup(was, k)
    ensures forall k: Bytes :: k != key ==> (k in Below(p, now) <==> k in Below(p, was))
    ensures forall k: Bytes :: k != key && k in Below(p, was) ==> Below(p, now)[k] == Below(p, was)[k]
  {
    forall k: Bytes | k != key
      ensures (k in Below(p, now) <==> k in Below(p, was))
      ensures (k in Below(p, was) ==> Below(p, now)[k] == Below(p, was)[k])
    {
      assert (p + k)[|p|..] == k && (p + key)[|p|..] == key;
      assert Lookup(now, p + k) == Lookup(was, p + k);
    }
  }
}

/** Sorted listings of keys, entries, writes and names: what the B-trees, `sort.Strings` and the ordered
    iterators of the underlying stores deliver. */
module Listing {
  import opened Bytes
  import opened MergeIterator

  method FirstKey(ascending: bool, s: set<Key>) returns (m: Key)
    requires s != {}
    ensures m == First(ascending, s)
  {
    m :| m in s;
    var todo := s - {m};
    while todo != {}
      invariant m in s && todo <= s
      invariant forall x :: x in s && x !in todo && x != m ==> Before(ascending, m, x)
      decreases todo
    {
      var k :| k in todo;
      BeforeTotal(ascending, m, k);
      if Before(ascending, k, m) {
        forall x | x in s && x !in todo && x != m ensures Before(ascending, k, x) {
          BeforeTransitive(ascending, k, m, x);
        }
        m := k;
      }
      todo := todo - {k};
    }
    var f := First(ascending, s);
    if m != f { BeforeIsStrict(ascending, m, f); }
  }

  method SortKeys(ascending: bool, s: set<Key>) returns (r: seq<Key>)
    ensures r == Sorted(ascending, s)
  {
    r := [];
    var todo := s;
    while todo != {}
      invariant r + Sorted(ascending, todo) == Sorted(ascending, s)
      decreases todo
    {
      var m := FirstKey(ascending, todo);
      SortedStep(ascending, todo, r);
      r, todo := r + [m], todo - {m};
    }
  }

  lemma SortedStep(ascending: bool, s: set<Key>, r: seq<Key>)
    requires s != {}
    ensures r + Sorted(ascending, s) == (r + [First(ascending, s)]) + Sorted(ascending, s - {First(ascending, s)})
  {
  }

  method ListEntries(ascending: bool, r: Range, m: KVMap) returns (s: seq<Entry>)
    ensures s == EntriesOf(ascending, r, m)
  {
    var ks := SortKeys(ascending, KeysIn(r, m.Keys));
    assert forall i :: 0 <= i < |ks| ==> ks[i] in KeysIn(r, m.Keys);
    s := seq(|ks|, i requires 0 <= i < |ks| => Entry(ks[i], m[ks[i]]));
    assert EntryKeys(s) == EntryKeys(EntriesOf(ascending, r, m));
    SameListing(ascending, r, m, s);
  }

  lemma SameListing(ascending: bool, r: Range, m: KVMap, s: seq<Entry>)
    requires EntryKeys(s) == EntryKeys(EntriesOf(ascending, r, m))
    requires forall i :: 0 <= i < |s| ==> s[i].key in m && s[i].value == m[s[i].key]
    ensures s == EntriesOf(ascending, r, m)
  {
    var e := EntriesOf(ascending, r, m);
    forall i | 0 <= i < |s| ensures s[i] == e[i] { assert EntryKeys(s)[i] == EntryKeys(e)[i]; }
  }

  method ListWrites(ascending: bool, r: Range, ws: WriteSet) returns (s: seq<Write>)
    ensures s == WritesOf(ascending, r, ws)
  {
    var ks := SortKeys(ascending, KeysIn(r, ws.Keys));
    assert forall i :: 0 <= i < |ks| ==> ks[i] in KeysIn(r, ws.Keys);
    s := seq(|ks|, i requires 0 <= i < |ks| => MergeIterator.Write(ks[i], ws[ks[i]]));
    var e := WritesOf(ascending, r, ws);
    assert WriteKeys(s) == WriteKeys(e);
    forall i | 0 <= i < |s| ensures s[i] == e[i] { assert WriteKeys(s)[i] == WriteKeys(e)[i]; }
  }

  // ----- Names -----

  predicate NameOrdered(s: seq<Bytes>) {
    forall i, j :: 0 <= i < j < |s| ==> LessEq(s[i], s[j])
  }

  /** `sort.Strings`. */
  method SortNames(names: seq<Bytes>) returns (r: seq<Bytes>)
    ensures NameOrdered(r) && multiset(r) == multiset(names)
  {
    r := [];
    for i := 0 to |names|
      invariant NameOrdered(r) && multiset(r) == multiset(names[..i])
    {
      r := InsertName(r, names[i]);
      assert names[..i + 1] == names[..i] + [names[i]];
    }
    assert names[..|names|] == names;
  }

  method InsertName(s: seq<Bytes>, x: Bytes) returns (r: seq<Bytes>)
    requires NameOrdered(s)
    ensures NameOrdered(r) && multiset(r) == multiset(s) + multiset{x}
  {
    hide Less;
    var n := 0;
    while n < |s| && Less(s[n], x)
      invariant 0 <= n <= |s| && forall i :: 0 <= i < n ==> Less(s[i], x)
    {
      n := n + 1;
    }
    r := s[..n] + [x] + s[n..];
    assert s == s[..n] + s[n..];
    forall i | n <= i < |s| ensures LessEq(x, s[i]) {
      LessTotal(s[n], x);
      if i > n && x != s[n] && s[n] != s[i] { LessTransitive(x, s[n], s[i]); }
    }
  }
}

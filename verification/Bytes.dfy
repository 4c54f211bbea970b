/** Byte strings, the order of Go's `bytes.Compare`, key ranges and sorted key lists. */
module Bytes {

  datatype Option<+T> = None | Some(value: T)

  type byte = x: int | 0 <= x < 256
  type Bytes = seq<byte>

  /** A store key: `AssertValidKey` panics on the empty key. */
  type Key = k: Bytes | |k| > 0 witness [0]

  /** A key/value store as a finite map. Values may be empty but are never nil. */
  type KVMap = map<Key, Bytes>

  /** `bytes.Compare(a, b) < 0`: the first difference decides, a proper prefix is smaller. */
  predicate Less(a: Bytes, b: Bytes)
    decreases |a|
  {
    b != [] && (a == [] || a[0] < b[0] || (a[0] == b[0] && Less(a[1..], b[1..])))
  }

  predicate LessEq(a: Bytes, b: Bytes) {
    a == b || Less(a, b)
  }

  lemma {:induction false} LessIrreflexive(a: Bytes)
    ensures !Less(a, a)
    decreases |a|
  {
    if a != [] { LessIrreflexive(a[1..]); }
  }

  lemma {:induction false} LessTransitive(a: Bytes, b: Bytes, c: Bytes)
    requires Less(a, b) && Less(b, c)
    ensures Less(a, c)
    decreases |a|
  {
    if a != [] && a[0] == b[0] == c[0] { LessTransitive(a[1..], b[1..], c[1..]); }
  }

  lemma {:induction false} LessTotal(a: Bytes, b: Bytes)
    ensures a == b || Less(a, b) || Less(b, a)
    decreases |a|
  {
    if a != [] && b != [] && a[0] == b[0] {
      LessTotal(a[1..], b[1..]);
      assert a == [a[0]] + a[1..] && b == [b[0]] + b[1..];
    }
  }

  lemma LessAsymmetric(a: Bytes, b: Bytes)
    requires Less(a, b)
    ensures !Less(b, a) && a != b
  {
    LessIrreflexive(a);
    if Less(b, a) { LessTransitive(a, b, a); }
  }

  /** The order in which an iterator of the given direction visits keys. */
  predicate Before(ascending: bool, a: Bytes, b: Bytes) {
    if ascending then Less(a, b) else Less(b, a)
  }

  lemma BeforeIsStrict(ascending: bool, a: Bytes, b: Bytes)
    requires Before(ascending, a, b)
    ensures !Before(ascending, b, a) && a != b
  {
    if ascending { LessAsymmetric(a, b); } else { LessAsymmetric(b, a); }
  }

  lemma BeforeTransitive(ascending: bool, a: Bytes, b: Bytes, c: Bytes)
    requires Before(ascending, a, b) && Before(ascending, b, c)
    ensures Before(ascending, a, c)
  {
    if ascending { LessTransitive(a, b, c); } else { LessTransitive(c, b, a); }
  }

  lemma BeforeTotal(ascending: bool, a: Bytes, b: Bytes)
    ensures a == b || Before(ascending, a, b) || Before(ascending, b, a)
  {
    LessTotal(a, b);
  }

  /** Strictly ordered in iteration direction, hence free of duplicates. */
  predicate Ordered(ascending: bool, s: seq<Bytes>) {
    forall i, j :: 0 <= i < j < |s| ==> Before(ascending, s[i], s[j])
  }

  function Elements<T(==,!new)>(s: seq<T>): (r: set<T>)
    ensures forall x :: x in r <==> x in s
  {
    set x | x in s
  }

  /** A value at two positions is there at least twice, and conversely. */
  lemma CountTwice<T>(s: seq<T>, i: nat, j: nat)
    requires i < j < |s| && s[i] == s[j]
    ensures multiset(s)[s[i]] >= 2
  {
    assert s == s[..j] + [s[j]] + s[j + 1..];
    assert s[..j][i] in multiset(s[..j]);
  }

  lemma AnotherIndex<T>(s: seq<T>, i: nat) returns (j: nat)
    requires i < |s| && multiset(s)[s[i]] >= 2
    ensures j < |s| && j != i && s[j] == s[i]
  {
    var rest := s[..i] + s[i + 1..];
    assert s == s[..i] + [s[i]] + s[i + 1..];
    assert multiset(s) == multiset(rest) + multiset{s[i]};
    assert s[i] in multiset(rest);
    var n :| 0 <= n < |rest| && rest[n] == s[i];
    j := if n < i then n else n + 1;
  }

  /** Two strictly ordered lists with the same elements are the same list. */
  lemma {:induction false} OrderedUnique(ascending: bool, s: seq<Bytes>, t: seq<Bytes>)
    requires Ordered(ascending, s) && Ordered(ascending, t)
    requires forall x :: x in s <==> x in t
    ensures s == t
    decreases |s|
  {
    assert t == [] || t[0] in t;
    if s != [] {
      assert s[0] in t && t != [] && t[0] in s;
      var i :| 0 <= i < |t| && t[i] == s[0];
      var j :| 0 <= j < |s| && s[j] == t[0];
      if i > 0 {
        BeforeIsStrict(ascending, t[0], t[i]);
        assert false;
      }
      assert s[0] == t[0];
      forall x ensures x in s[1..] <==> x in t[1..] {
        if x in s[1..] {
          var a :| 1 <= a < |s| && s[a] == x;
          BeforeIsStrict(ascending, s[0], s[a]);
          assert x in t;
        }
        if x in t[1..] {
          var a :| 1 <= a < |t| && t[a] == x;
          BeforeIsStrict(ascending, t[0], t[a]);
          assert x in s;
        }
      }
      OrderedUnique(ascending, s[1..], t[1..]);
    }
  }

  lemma {:induction false} HasFirst(ascending: bool, s: set<Key>)
    requires s != {}
    ensures exists m :: m in s && forall x :: x in s && x != m ==> Before(ascending, m, x)
    decreases s
  {
    var a :| a in s;
    if s == {a} {
      assert forall x :: x in s && x != a ==> Before(ascending, a, x);
    } else {
      HasFirst(ascending, s - {a});
      var m :| m in s - {a} && forall x :: x in s - {a} && x != m ==> Before(ascending, m, x);
      var first := FirstOfMore(ascending, s, a, m);
    }
  }

  lemma FirstOfMore(ascending: bool, s: set<Key>, a: Key, m: Key) returns (first: Key)
    requires a in s && m in s && a != m && forall x :: x in s - {a} && x != m ==> Before(ascending, m, x)
    ensures first in s && forall x :: x in s && x != first ==> Before(ascending, first, x)
  {
    BeforeTotal(ascending, a, m);
    first := if Before(ascending, a, m) then a else m;
    forall x | x in s && x != first ensures Before(ascending, first, x) {
      if first == a && x != m { BeforeTransitive(ascending, a, m, x); }
    }
  }

  /** The first key of a non-empty set, in iteration direction. */
  ghost function First(ascending: bool, s: set<Key>): (m: Key)
    requires s != {}
    ensures m in s && forall x :: x in s && x != m ==> Before(ascending, m, x)
  {
    HasFirst(ascending, s);
    var m :| m in s && forall x :: x in s && x != m ==> Before(ascending, m, x);
    m
  }

  /** The keys of a set as a strictly ordered list (`sort.Strings` over map keys, a B-tree's order). */
  ghost function Sorted(ascending: bool, s: set<Key>): (r: seq<Key>)
    ensures Ordered(ascending, r)
    ensures forall k :: k in r <==> k in s
    ensures |r| == |s|
    decreases s
  {
    if s == {} then []
    else
      var m := First(ascending, s);
      var rest := Sorted(ascending, s - {m});
      assert forall i :: 0 <= i < |rest| ==> rest[i] in s - {m};
      [m] + rest
  }

  /** A key range: start inclusive, end exclusive, None (nil) unbounded. */
  datatype Range = Range(start: Option<Key>, end: Option<Key>)

  predicate InRange(r: Range, k: Bytes) {
    (r.start.Some? ==> !Less(k, r.start.value)) && (r.end.Some? ==> Less(k, r.end.value))
  }

  function KeysIn(r: Range, s: set<Key>): (t: set<Key>)
    ensures forall k :: k in t <==> k in s && InRange(r, k)
  {
    set k | k in s && InRange(r, k)
  }

  /** What an iterator over a store holding `s` visits. */
  ghost function Scan(ascending: bool, r: Range, s: set<Key>): (t: seq<Key>)
    ensures Ordered(ascending, t)
    ensures forall k :: k in t <==> k in s && InRange(r, k)
  {
    Sorted(ascending, KeysIn(r, s))
  }

  function Lookup(m: KVMap, k: Key): Option<Bytes> {
    if k in m then Some(m[k]) else None
  }

  /** `bytes.Equal`: nil and the empty slice compare equal. */
  predicate BytesEqual(a: Option<Bytes>, b: Option<Bytes>) {
    Contents(a) == Contents(b)
  }

  function Contents(a: Option<Bytes>): Bytes {
    if a.None? then [] else a.value
  }

  // ----- Sequences -----

  predicate Suffix<T(==)>(a: seq<T>, b: seq<T>) {
    |a| <= |b| && a == b[|b| - |a|..]
  }

  lemma SuffixTransitive<T>(a: seq<T>, b: seq<T>, c: seq<T>)
    requires Suffix(a, b) && Suffix(b, c)
    ensures Suffix(a, c)
  {
  }
}

/** `internal/kv/kv.go`: key/value pairs and their order. */
module Kv {
  import opened Bytes

  datatype Pair = Pair(key: Bytes, value: Bytes)

  predicate PairLess(a: Pair, b: Pair) {
    Less(a.key, b.key) || (a.key == b.key && Less(a.value, b.value))
  }

  /** Sorted by key, and by value among equal keys (`kv.Pairs.Less`). */
  ghost predicate PairsSorted(s: seq<Pair>) {
    forall i, j :: 0 <= i < j < |s| ==> !PairLess(s[j], s[i])
  }

  lemma PairLessTransitive(a: Pair, b: Pair, c: Pair)
    requires PairLess(a, b) && PairLess(b, c)
    ensures PairLess(a, c)
  {
    if Less(a.key, b.key) && Less(b.key, c.key) { LessTransitive(a.key, b.key, c.key); }
    if a.key == b.key == c.key {
      LessIrreflexive(a.key);
      LessTransitive(a.value, b.value, c.value);
    }
  }

  /** Insertion into a sorted list. */
  method Insert(s: seq<Pair>, p: Pair) returns (r: seq<Pair>)
    requires PairsSorted(s)
    ensures PairsSorted(r) && multiset(r) == multiset(s) + multiset{p}
  {
    var n := 0;
    while n < |s| && !PairLess(p, s[n])
      invariant 0 <= n <= |s| && forall i :: 0 <= i < n ==> !PairLess(p, s[i])
    {
      n := n + 1;
    }
    r := s[..n] + [p] + s[n..];
    assert s == s[..n] + s[n..];
    forall i, j | 0 <= i < j < |r| ensures !PairLess(r[j], r[i]) {
      if i == n && PairLess(r[j], p) {
        assert r[j] == s[j - 1];
        PairLessTransitive(s[j - 1], p, s[n]);
        PairIrreflexive(s[n]);
      }
    }
  }

  lemma PairIrreflexive(p: Pair)
    ensures !PairLess(p, p)
  {
    LessIrreflexive(p.key);
    LessIrreflexive(p.value);
  }

  method SortPairs(s: seq<Pair>) returns (r: seq<Pair>)
    ensures PairsSorted(r) && multiset(r) == multiset(s)
  {
    r := [];
    var n := 0;
    while n < |s|
      invariant 0 <= n <= |s| && PairsSorted(r) && multiset(r) == multiset(s[..n])
    {
      r := Insert(r, s[n]);
      assert s[..n + 1] == s[..n] + [s[n]];
      n := n + 1;
    }
    assert s[..|s|] == s;
  }

  /** A list of pairs has one sorted order only, so the result does not depend on the sorting algorithm. */
  lemma {:induction false} SortedUnique(s: seq<Pair>, t: seq<Pair>)
    requires PairsSorted(s) && PairsSorted(t) && multiset(s) == multiset(t)
    ensures s == t
    decreases |s|
  {
    hide PairLess, PairsSorted;
    if s != [] {
      assert s[0] in multiset(s);
      Tail(s, t);
      Tail(t, s);
      PairTotal(s[0], t[0]);
      SortedUnique(s[1..], t[1..]);
    } else {
      assert |t| == |multiset(s)|;
    }
  }

  lemma Tail(s: seq<Pair>, t: seq<Pair>)
    requires PairsSorted(s) && multiset(s) == multiset(t) && s != [] && t != []
    ensures PairsSorted(s[1..]) && multiset(s[1..]) == multiset(s) - multiset{s[0]} && !PairLess(t[0], s[0])
  {
    hide PairLess;
    assert s == [s[0]] + s[1..];
    assert t[0] in multiset(s);
    PairIrreflexive(s[0]);
  }

  lemma PairTotal(a: Pair, b: Pair)
    ensures PairLess(a, b) || a == b || PairLess(b, a)
  {
    LessTotal(a.key, b.key);
    LessTotal(a.value, b.value);
  }
}
